# Lock-free queue and stack over counted pointers, in Dafny

This project models three lock-free structures from a small C library:

- the double-width counted compare-and-swap (`include/ccas.h`);
- the Michael–Scott FIFO queue (`include/atomic_q.h`);
- the LIFO stack (`include/atomic_stack.h`).

It models their sequential semantics. Each compare-and-swap is one atomic transition on an immutable state. Each operation is the run it has when nobody else contends, so a retry loop collapses to the iteration that succeeds.

The "tail lags" state of the queue is kept as separate transitions:

- `Insert` links the new elements but leaves `tail` behind.
- `HelpTail` is the helping step that advances a lagging tail.
- `Swing` is the enqueuer's own final compare-and-swap.

With these separate, the proofs show that the counter bookkeeping survives any helping.

Memory is a map from element identities to `next` fields. For the queue these are counted pointers; for the stack, plain pointers. Each structure is related to a sequence of elements by an abstraction predicate:

- the queue list starts at the dummy, is acyclic and NULL-terminated, and `tail` sits at position `tail.ctr - head.ctr`;
- the stack list starts at `first`.

The release callback (`freeer`) is modelled as a log of the elements it has been called with. The release flag in bit 63 of each element's link counter is modelled arithmetically (module `ReleaseBit`).

Module `ReleaseProtocol` adds an observer's view, `World`. It records the queue, the elements a caller has dequeued but not yet passed to `aq_el_free`, and every element ever handed to the queue. It proves an invariant preserved by every operation. From that invariant it proves the exactly-once release guarantee at teardown.

Files:

| file | module | content |
|---|---|---|
| `ccas.dfy` | `CountedPtr` | counted pointers, the compare-and-swap, the ABA guard |
| `chains.dfy` | `Chains` | NULL-terminated acyclic lists over a link map |
| `release_bit.dfy` | `ReleaseBit` | bit 63 of a counter word, exclusive-or toggle |
| `atomic_q.dfy` | `AtomicQueue` | the queue operations, helping, FIFO |
| `atomic_stack.dfy` | `AtomicStack` | the stack operations, LIFO |
| `release.dfy` | `ReleaseProtocol` | the release invariant and exactly-once release |

The header comment at `include/atomic_q.h:100-104` describes a blocking policy for `aq_dequeue`. The code has none: `aq_dequeue` returns NULL on an empty queue. The model follows the code.

## Model

| member | source | states |
|---|---|---|
| CountedPtr.Cas | include/ccas.h:37-57 | The swap succeeds exactly when the stored pair equals the expected one in both pointer and counter. On success the location holds the new pointer with the counter advanced by `inc`, strictly larger than before. On failure the location is unchanged. |
| CountedPtr.Eq | include/ccas.h:62-67 | `counted_ptr_eq` holds exactly when the two pairs are equal, pointer and counter both. |
| CountedPtr.EqIsEquivalence | include/ccas.h:62-67 | `counted_ptr_eq` is reflexive, symmetric and transitive. |
| CountedPtr.Replay | include/ccas.h:46-49 | Across any series of swap attempts with positive increments, successful or not, the counter never decreases. If it ends where it started, the location was never changed. |
| CountedPtr.StaleSnapshotFails | include/atomic_q.h:20-28 | The ABA guard: after one successful swap on a location, any later swap that uses the snapshot taken before it fails. This holds whatever values the location passed through in between. |
| ReleaseBit.Toggle | include/atomic_q.h:253 | The exclusive-or with 1 << 63 inverts bit 63 and leaves the low 63 bits and every higher bit unchanged. |
| ReleaseBit.ToggleInvolutive | include/atomic_q.h:253 | Two toggles restore the counter word. |
| ReleaseBit.IncrementKeepsFlag | include/atomic_q.h:310-313 | The +1 that a link compare-and-swap adds to a counter leaves the release flag alone, as long as the low bits do not carry. |
| AtomicQueue.Init | include/atomic_q.h:183-206 | After `aq_init` the list is the dummy alone, so nothing is queued. `head` and `tail` both point at the dummy, so the queue is quiescent. The dummy's release flag is set. The callback has not been called. |
| AtomicQueue.InitEmpty | include/atomic_q.h:193-202 | A fresh queue is empty, reports zero queued, and has `head = tail = (dummy, 0)` and `dummy.next = (NULL, 1 << 63)`. |
| AtomicQueue.ElInit | include/atomic_q.h:209-213 | `aq_el_init` clears the element's release flag and its low counter bits. No link changes, and no other element changes. |
| AtomicQueue.Empty | include/atomic_q.h:216-220 | `aq_empty` reads the dummy's `next` pointer and reports whether it is NULL. What that means for the queue is stated by `EmptyIff`. |
| AtomicQueue.Queued | include/atomic_q.h:223-228 | `aq_queued` is the tail counter minus the head counter. What that counts is stated by `QueuedCounts` and `QueuedLagsDuringEnqueue`. |
| AtomicQueue.EmptyIff | include/atomic_q.h:215-220 | `aq_empty` holds exactly when no value is queued after the dummy. |
| AtomicQueue.QueuedCounts | include/atomic_q.h:222-228 | `aq_queued` is the position of `tail` in the list. It therefore lies between zero and the number of queued values, and it equals that number exactly when no enqueue is half done. |
| AtomicQueue.QueuedLagsDuringEnqueue | include/atomic_q.h:116-118 | Between the link of an enqueue and its final swing, `aq_queued` is below the number of queued values by the chain's length. |
| AtomicQueue.ElFree | include/atomic_q.h:250-256 | `aq_el_free` flips only bit 63 of the element's link counter. It calls the callback on the element exactly when the bit was set before the flip. Links, head, tail and every other element are unchanged. |
| AtomicQueue.TwoReleasesFireOnce | include/atomic_q.h:250-256 | An element fresh from `aq_el_init` is passed to the callback on its second `aq_el_free`, not on its first. |
| AtomicQueue.DummyFiresOnFirstRelease | include/atomic_q.h:195-197 | The initial dummy's preset flag makes its first `aq_el_free` call the callback. |
| AtomicQueue.HelpTail | include/atomic_q.h:316-324 | A helping step moves `tail` to the successor of the element it points at and adds one to its counter. Nothing else changes. |
| AtomicQueue.LagIff | include/atomic_q.h:290-294 | The tail element's `next` is NULL exactly when `tail` is on the last element of the list. |
| AtomicQueue.HelpTailStep | include/atomic_q.h:317-323 | A helping step on a lagging tail preserves the abstraction. The tail stays at the position its counter gives, and `aq_queued` goes up by one. |
| AtomicQueue.CatchUp | include/atomic_q.h:280-325 | Helping until `tail.next` is NULL ends with `tail` on the last element. Its counter is then the head counter plus the number of queued values. The list and `head` are untouched. |
| AtomicQueue.FindLast | include/atomic_q.h:273-278 | The walk from `el` finds the last element of the NULL-terminated chain and counts its elements. |
| AtomicQueue.Insert | include/atomic_q.h:294-315 | Linking the chain after the last element yields the concatenated list. The chain's last element gets `next = (NULL, tail.ctr)`, and the old last element's `next` becomes `el` with its counter +1. `tail` is left lagging on the old last element. Every other element is unchanged. |
| AtomicQueue.Swing | include/atomic_q.h:327-333 | The final swing changes only `tail`, never lowers its counter, and changes nothing when `tail` is no longer the snapshot. |
| AtomicQueue.SwingStep | include/atomic_q.h:327-333 | From the link-time snapshot, the final swing moves `tail` to the chain's end and keeps the abstraction. From a stale snapshot it leaves the state as the helpers left it. |
| AtomicQueue.SwingSucceeds | include/atomic_q.h:330-333 | A swing by `count` from the current tail keeps the tail at the position its counter gives. |
| AtomicQueue.SwingFails | include/atomic_q.h:330-333 | A swing with a snapshot that is not the current tail changes nothing. |
| AtomicQueue.HelpedSwingFails | include/atomic_q.h:320-333 | After even one helping step, the enqueuer's swing with its link-time snapshot fails. The tail stays where the helper put it. |
| AtomicQueue.HelpingConverges | include/atomic_q.h:317-333 | Helping once per inserted element leaves exactly the state the enqueuer's own swing would. So the bookkeeping does not depend on who moves the tail. |
| AtomicQueue.HelpN | include/atomic_q.h:317-323 | Any number of helping steps, up to the lag, keep the abstraction and add one to `tail.ctr` per step. |
| AtomicQueue.UncontendedSwing | include/atomic_q.h:327-333 | The swing right after linking succeeds, ends the lag, and leaves `tail.ctr` equal to the head counter plus the new number of queued values. |
| AtomicQueue.EnqueueMulti | include/atomic_q.h:262-339 | All elements of the chain are appended after the last element, in chain order. `tail` ends on the chain's end, with `tail.ctr` raised by the chain length. The returned count is the new number of queued values. Only the old last element and the chain's last element change in memory. |
| AtomicQueue.Cut | include/atomic_q.h:344 | Setting `el->next.ptr` to NULL changes only that link and keeps every counter. |
| AtomicQueue.CutLink | include/atomic_q.h:341-346 | An element not on the list, with its link cut, is a one-element chain the enqueue accepts. The list is unaffected. |
| AtomicQueue.Enqueue | include/atomic_q.h:341-346 | `aq_enqueue` appends exactly `el`. The returned count is the old number of queued values plus one. The queue ends quiescent. |
| AtomicQueue.Dequeue | include/atomic_q.h:348-399 | The dequeue returns NULL exactly when the queue is empty, and then changes nothing. Otherwise it returns the dummy's successor and makes it the new head with the counter +1. It first helps a tail still on the old dummy, and it releases the old dummy through `aq_el_free`. |
| AtomicQueue.DequeueEmpty | include/atomic_q.h:365-370 | On a queue with nothing queued, `aq_dequeue` returns NULL and leaves head, tail and memory unchanged. |
| AtomicQueue.DequeueStep | include/atomic_q.h:379-398 | FIFO with dummy rotation: a non-empty dequeue returns the first queued value and makes it the dummy. The queued values lose exactly their first element, and the rest keep their order. Counters keep matching positions. |
| AtomicQueue.DequeueHead | include/atomic_q.h:383-390 | The head side of a non-empty dequeue: `head` moves onto the returned element with its counter +1, and the rest of the list is still a chain. |
| AtomicQueue.DequeueTail | include/atomic_q.h:371-377 | The tail side of a non-empty dequeue: a tail on the old dummy is helped onto its successor, so `tail` stays at the position its counter gives. |
| AtomicQueue.DequeueQuiescent | include/atomic_q.h:348-399 | A dequeue from a quiescent queue leaves it quiescent. |
| AtomicQueue.Free | include/atomic_q.h:230-248 | `aq_free` passes every element on the list, the dummy included, to the callback in list order. It then leaves `head = tail = (NULL, 0)`. |
| AtomicQueue.EnqueueFirst | include/atomic_q.h:341-346 | After enqueuing the first of a run of fresh, unflagged elements, the rest can still be enqueued. |
| AtomicQueue.EnqueueEach | include/atomic_q.h:341-346 | Enqueuing elements one by one appends them in order. A non-empty run ends quiescent, with `aq_queued` equal to the number of queued values. |
| AtomicQueue.DequeueN | include/atomic_q.h:348-399 | `n` dequeues return the first `n` queued values in order, leave the rest queued, and add `n` to `head.ctr`. |
| AtomicQueue.Fifo | include/atomic_q.h:36-39 | Values enqueued one by one onto an empty queue come back from as many dequeues in the order they went in. The queue is then empty again. |
| AtomicStack.Init | include/atomic_stack.h:50-57 | `as_init` leaves an empty stack with `first = (NULL, 0)`. |
| AtomicStack.InitEmpty | include/atomic_stack.h:50-57 | A fresh stack is empty, and popping it returns NULL. |
| AtomicStack.Empty | include/atomic_stack.h:92-95 | `as_empty` reports whether `first` holds NULL. What that means for the stack is stated by `EmptyIff`. |
| AtomicStack.EmptyIff | include/atomic_stack.h:92-95 | `as_empty` holds exactly when no entry is on the stack. |
| AtomicStack.Push | include/atomic_stack.h:60-71 | `as_push` sets `e->next` to the old top and `first` to `(e, old counter + 1)`. No other entry changes. |
| AtomicStack.PushStep | include/atomic_stack.h:60-71 | Pushing an entry not on the stack puts it on top of the list. The precondition that it is not already the top then holds. |
| AtomicStack.Pop | include/atomic_stack.h:74-89 | `as_pop` returns the old top pointer. On an empty stack it changes nothing. Otherwise `first` becomes the top's `next`, with its counter +1. |
| AtomicStack.PopEmpty | include/atomic_stack.h:81-82 | Popping an empty stack returns NULL and changes nothing. |
| AtomicStack.PopStep | include/atomic_stack.h:84-88 | Popping a non-empty stack returns the top entry and leaves the rest of the list in order. |
| AtomicStack.PushThenPop | include/atomic_stack.h:60-89 | A push followed by a pop returns the pushed entry and restores the previous top pointer, with the counter two further on. |
| AtomicStack.PushAll | include/atomic_stack.h:60-71 | Pushing entries one by one puts them on the list in reverse order, and `first.ctr` rises by their number. |
| AtomicStack.PopN | include/atomic_stack.h:74-89 | `n` pops return the top `n` entries, top first, leave the rest, and add `n` to the counter. |
| AtomicStack.Lifo | include/atomic_stack.h:60-89 | After a run of pushes, as many pops return the entries in reverse push order. They leave the stack below as it was, with the same top pointer. |
| ReleaseProtocol.InitEstablishes | include/atomic_q.h:193-206 | Right after `aq_init` the release invariant holds. The dummy is the only admitted element, and it is flagged because no caller holds it. |
| ReleaseProtocol.EnqueueFlags | include/atomic_q.h:303-313 | After an enqueue, the chain's last element carries the tail counter with its flag clear. The old last element's flag survives the +1 of the link swap. |
| ReleaseProtocol.EnqueueMultiPreserves | include/atomic_q.h:262-339 | `aq_enqueue_multi` of a chain of fresh elements keeps the release invariant. |
| ReleaseProtocol.EnqueuePreserves | include/atomic_q.h:341-346 | `aq_enqueue` of a fresh element keeps the release invariant. |
| ReleaseProtocol.CutPreserves | include/atomic_q.h:344 | Cutting a fresh element's link keeps the release invariant and makes it a fresh one-element chain. |
| ReleaseProtocol.DequeuePreserves | include/atomic_q.h:395-398 | A dequeue keeps the release invariant, and the caller holds the returned element. The displaced dummy reaches the callback exactly when the caller does not still hold it. |
| ReleaseProtocol.DequeueEmptyPreserves | include/atomic_q.h:365-370 | A dequeue from an empty queue changes nothing. |
| ReleaseProtocol.ReleasePreserves | include/atomic_q.h:250-256 | A caller's `aq_el_free` on an element it holds keeps the release invariant. It calls the callback exactly when the element is no longer the dummy; otherwise the dequeue that displaces it will. |
| ReleaseProtocol.ExactlyOnce | include/atomic_q.h:230-248 | Once the caller has released everything it dequeued, `aq_free` completes the callback log. Every element ever handed to the queue then appears in it exactly once, and nothing else does. |
| ReleaseProtocol.TeardownLog | include/atomic_q.h:233-242 | The log `aq_free` leaves is the earlier releases followed by the list, without repetition, covering exactly the admitted elements. |

## Left out

- The `cmpxchg16b` instruction sequence and the `-fPIC` restriction (`include/ccas.h:33-55`). The swap is modelled by its atomic contract only.
- The 16-byte alignment assertions on addresses. Element identities are abstract, so address arithmetic has no meaning for them.
- Concurrency is not modelled:
  - thread interleavings and per-thread snapshots;
  - the re-validation `continue` branches of enqueue and dequeue;
  - retries under contention;
  - the benign reads of already released elements.
  
  Each operation is its uncontended run. Helping and a stale final swing are the only interference modelled, as separate transitions.
- CountedPtr.Cas: counters are unbounded integers. The signed 64-bit overflow of `old.ctr + inc` is not modelled.
- ReleaseProtocol.EnqueueMultiPreserves: requires that the counters stay below 1 << 63, so that a low-bit counter never carries into the release flag. The C code makes no such check.
- ReleaseProtocol.EnqueueMultiPreserves: requires every element of the chain to be fresh from `aq_el_init` with its flag clear. The C code asserts this only for the chain's first element.
- ReleaseProtocol.ExactlyOnce: covers only a teardown after the caller has released every element it dequeued. `aq_free` also passes the current dummy to the callback when the caller still holds it. The caller's later `aq_el_free` on that element would then only flip its flag, in memory already released.
- AtomicQueue.Enqueue: requires that `el` is not already on the list. The C code asserts only that `el` is not the current tail. For an element before the tail, the NULL written into `el->next` would end the list at `el`. Every element after it would then be lost and never released.
- AtomicQueue.EnqueueMulti: requires the chain to share no element with the list. The C code asserts only that the current tail is not `el` and that no element links to itself. A chain that reaches into the list would make the walk to its end, or the linked list itself, cyclic.
- The `freeer` function pointer and `freeer_arg` are not modelled. The callback is the append of the element to the queue's log.
- The cache-line padding fields of `struct atomic_q` are not modelled.
- The blocking and timed dequeue described in the header comment are not modelled. They do not exist in the code.
- `aq_from_cp` is the `ptr` field selector of a counted pointer, so it has no member of its own.
- Memory is never reclaimed. Released elements stay in the heap map, and reuse of an element is modelled by a fresh identity.
- The stress test `src/aq_test.c` is not part of this model.

## Findings

| source | as written | input that shows it | evidently intended | confidence | as-written member | corrected member |
|---|---|---|---|---|---|---|
| include/atomic_q.h:116-118 | The comment calls `aq_queued` an upper bound on the elements in the queue. | An enqueue of a chain of k elements, observed after its link compare-and-swap and before its final swing: `aq_queued` is k below the number of queued values. | `aq_queued` is a lower bound. It is never above the number of queued values, and equals it when no enqueue is half done. | not executed; proved for every single state of the sequential model, which does not cover a reader whose two counter reads race with other operations | AtomicQueue.QueuedLagsDuringEnqueue | AtomicQueue.QueuedCounts |
