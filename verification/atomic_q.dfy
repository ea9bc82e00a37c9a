/**
  The Michael-Scott lock-free FIFO queue, one atomic step at a time.

  The queue is a NULL-terminated list that always starts with a dummy
  element. `head` points at the dummy and `tail` at the last element or,
  while an enqueue is half done, at some element before it. Every
  compare-and-swap is one transition; retry loops that only matter under
  contention collapse to the run an operation has when nobody else
  interferes. The "tail lags" state and the helping step that advances it are
  separate transitions (`Insert`, `HelpTail`, `Swing`) so that the counter
  bookkeeping can be shown to survive them.

  Memory is the map `heap` from elements to their `next` counted pointers.
  The release callback is modelled by `log`, the sequence of elements it
  has been called with so far.
*/
module AtomicQueue {
  import opened CountedPtr
  import opened Chains
  import opened ReleaseBit

  /** Every element's `next` field. */
  type Heap = map<NodeId, Counted>

  /** `struct atomic_q` together with the memory it points into. */
  datatype Queue = Queue(heap: Heap, head: Counted, tail: Counted, log: seq<NodeId>)

  /** Result of an enqueue: the new state and the size estimate it returns. */
  datatype Enqueued = Enqueued(q: Queue, size: int)

  /** Result of a dequeue: the new state and the element returned (or NULL). */
  datatype Taken = Taken(q: Queue, el: Ptr)

  /** The pointer part of every element's `next` field. */
  function Links(heap: Heap): map<NodeId, Ptr> {
    map n | n in heap :: heap[n].ptr
  }

  /**
    The abstraction: `nodes` is the list from `head`, dummy first, and `tail`
    sits on it at the position given by the counters, `tail.ctr - head.ctr`
    elements after the dummy.
  */
  ghost predicate Inv(q: Queue, nodes: seq<NodeId>) {
    && |nodes| > 0
    && IsChain(Links(q.heap), nodes)
    && q.head.ptr == Addr(nodes[0])
    && 0 <= q.head.ctr
    && 0 <= q.tail.ctr - q.head.ctr < |nodes|
    && q.tail.ptr == Addr(nodes[q.tail.ctr - q.head.ctr])
  }

  /** The queued values: every element after the dummy, oldest first. */
  function Contents(nodes: seq<NodeId>): seq<NodeId>
    requires |nodes| > 0
  {
    nodes[1..]
  }

  /** Appending elements to the list appends them to the contents. */
  lemma ContentsAppend(nodes: seq<NodeId>, more: seq<NodeId>)
    requires |nodes| > 0
    ensures Contents(nodes + more) == Contents(nodes) + more
  {
    assert (nodes + more)[1..] == nodes[1..] + more;
  }

  /** No enqueue is half done: `tail` is on the last element. */
  predicate Quiescent(q: Queue, nodes: seq<NodeId>)
    requires |nodes| > 0
  {
    q.tail.ptr == Addr(Last(nodes))
  }

  /**
    A chain the caller may hand to `EnqueueMulti`: NULL-terminated, starting
    at `el`, and made of elements not already on the queue.
  */
  ghost predicate Admissible(q: Queue, nodes: seq<NodeId>, chain: seq<NodeId>, el: NodeId) {
    && |chain| > 0
    && chain[0] == el
    && IsChain(Links(q.heap), chain)
    && Disjoint(nodes, chain)
  }

  // ---------------------------------------------------------------------
  // Heap facts
  // ---------------------------------------------------------------------

  /** Writing a `next` field changes only that element's link. */
  lemma LinksUpdate(heap: Heap, n: NodeId, c: Counted)
    ensures Links(heap[n := c]) == Links(heap)[n := c.ptr]
  {
  }

  /** `Inv` depends on memory only through the links. */
  lemma InvFrame(q: Queue, q': Queue, nodes: seq<NodeId>)
    requires Inv(q, nodes)
    requires Links(q'.heap) == Links(q.heap) && q'.head == q.head && q'.tail == q.tail
    ensures Inv(q', nodes)
  {
  }

  /** `tail` may be put on any element of the list whose position its counter gives. */
  lemma MoveTail(q: Queue, nodes: seq<NodeId>, t: Counted)
    requires Inv(q, nodes)
    requires 0 <= t.ctr - q.head.ctr < |nodes|
    requires t.ptr == Addr(nodes[t.ctr - q.head.ctr])
    ensures Inv(q.(tail := t), nodes)
  {
  }

  /** Under the abstraction, `head` and `tail` point at elements in memory. */
  lemma InvInHeap(q: Queue, nodes: seq<NodeId>)
    requires Inv(q, nodes)
    ensures q.head.ptr.id in q.heap && q.tail.ptr.id in q.heap
    ensures forall i | 0 <= i < |nodes| :: nodes[i] in q.heap
  {
    assert nodes[0] in Links(q.heap);
    assert nodes[q.tail.ctr - q.head.ctr] in Links(q.heap);
    forall i | 0 <= i < |nodes|
      ensures nodes[i] in q.heap
    {
      assert nodes[i] in Links(q.heap);
    }
  }

  // ---------------------------------------------------------------------
  // Initialisation and queries
  // ---------------------------------------------------------------------

  /**
    `aq_init`: the dummy's link becomes (NULL, 1 << 63), its release flag
    preset because the dummy is never handed to a caller; head and tail both
    point at it with counter 0.
  */
  function Init(heap: Heap, dummy: NodeId): (q: Queue)
    requires dummy in heap
    ensures Inv(q, [dummy]) && Quiescent(q, [dummy])
    ensures Bit63(q.heap[dummy].ctr)
    ensures q.log == []
  {
    var q := Queue(heap[dummy := Counted(Null, FLAG)], Counted(Addr(dummy), 0), Counted(Addr(dummy), 0), []);
    assert Links(q.heap)[dummy] == Null;
    q
  }

  /** `aq_el_init`: clears the link counter, and with it the release flag. */
  function ElInit(heap: Heap, el: NodeId): (r: Heap)
    requires el in heap
    ensures r.Keys == heap.Keys && Links(r) == Links(heap)
    ensures !Bit63(r[el].ctr) && Low(r[el].ctr) == 0
    ensures forall n | n in heap && n != el :: r[n] == heap[n]
  {
    var r := heap[el := heap[el].(ctr := 0)];
    LinksUpdate(heap, el, r[el]);
    r
  }

  /** `aq_empty`: the dummy has no successor. */
  predicate Empty(q: Queue)
    requires q.head.ptr.Addr? && q.head.ptr.id in q.heap
  {
    q.heap[q.head.ptr.id].ptr == Null
  }

  /** `aq_queued`: enqueues minus dequeues, read off the two counters. */
  function Queued(q: Queue): int {
    q.tail.ctr - q.head.ctr
  }

  /** `aq_empty` holds exactly when nothing is queued. */
  lemma EmptyIff(q: Queue, nodes: seq<NodeId>)
    requires Inv(q, nodes)
    ensures q.head.ptr.Addr? && q.head.ptr.id in q.heap
    ensures Empty(q) <==> Contents(nodes) == []
  {
    InvInHeap(q, nodes);
    assert Links(q.heap)[nodes[0]] == Next(nodes, 0);
  }

  /**
    The counters track positions: `aq_queued` is always the number of
    elements from the dummy to `tail`, hence at most the queue length, and in
    a quiescent state exactly the number of queued values.
  */
  lemma QueuedCounts(q: Queue, nodes: seq<NodeId>)
    requires Inv(q, nodes)
    ensures 0 <= Queued(q) <= |Contents(nodes)|
    ensures q.tail.ptr == Addr(nodes[Queued(q)])
    ensures Quiescent(q, nodes) <==> Queued(q) == |Contents(nodes)|
  {
  }

  /**
    `aq_queued` is never above the number of queued values: between the link
    of an enqueue and its final swing the new chain is already on the list,
    but `tail` has not reached it, so the count falls short by the chain's
    length.
  */
  lemma QueuedLagsDuringEnqueue(q: Queue, el: NodeId, nodes: seq<NodeId>, chain: seq<NodeId>)
    requires Inv(q, nodes) && Admissible(q, nodes, chain, el)
    ensures var r := Insert(q, el, Last(chain), nodes, chain);
            && Queued(r) == |Contents(nodes)|
            && Queued(r) + |chain| == |Contents(nodes + chain)|
  {
  }

  /** A queue fresh from `aq_init` is empty and reports zero queued. */
  lemma InitEmpty(heap: Heap, dummy: NodeId)
    requires dummy in heap
    ensures Empty(Init(heap, dummy)) && Queued(Init(heap, dummy)) == 0
    ensures Init(heap, dummy).head == Init(heap, dummy).tail == Counted(Addr(dummy), 0)
    ensures Init(heap, dummy).heap[dummy] == Counted(Null, FLAG)
  {
  }

  // ---------------------------------------------------------------------
  // Releasing elements
  // ---------------------------------------------------------------------

  /**
    `aq_el_free`: atomically flip bit 63 of `el`'s link counter and call the
    release callback exactly when the bit was set before the flip.
  */
  function ElFree(q: Queue, el: NodeId): (r: Queue)
    requires el in q.heap
    ensures r.head == q.head && r.tail == q.tail
    ensures r.heap.Keys == q.heap.Keys && Links(r.heap) == Links(q.heap)
    ensures forall n | n in q.heap && n != el :: r.heap[n] == q.heap[n]
    ensures Bit63(r.heap[el].ctr) == !Bit63(q.heap[el].ctr)
    ensures Low(r.heap[el].ctr) == Low(q.heap[el].ctr)
    ensures Bit63(q.heap[el].ctr) ==> r.log == q.log + [el]
    ensures !Bit63(q.heap[el].ctr) ==> r.log == q.log
  {
    var was := q.heap[el].ctr;
    var heap' := q.heap[el := q.heap[el].(ctr := Toggle(was))];
    LinksUpdate(q.heap, el, heap'[el]);
    var log' := if Bit63(was) then q.log + [el] else q.log;
    q.(heap := heap', log := log')
  }

  /**
    An element fresh from `aq_el_init` needs two `aq_el_free` calls before it
    is released: the first only sets the flag, the second fires the callback.
  */
  lemma TwoReleasesFireOnce(q: Queue, el: NodeId)
    requires el in q.heap
    ensures var q0 := q.(heap := ElInit(q.heap, el));
            var q1 := ElFree(q0, el);
            q1.log == q.log && ElFree(q1, el).log == q.log + [el]
  {
  }

  /** The initial dummy, preset by `aq_init`, is released by its first flip. */
  lemma DummyFiresOnFirstRelease(heap: Heap, dummy: NodeId)
    requires dummy in heap
    ensures ElFree(Init(heap, dummy), dummy).log == [dummy]
  {
  }

  // ---------------------------------------------------------------------
  // Helping a lagging tail
  // ---------------------------------------------------------------------

  /**
    The helping step: `tail` does not point at the last element, so a thread
    swings it one element forward with a compare-and-swap (+1).
  */
  function HelpTail(q: Queue): (r: Queue)
    requires q.tail.ptr.Addr? && q.tail.ptr.id in q.heap
    requires q.heap[q.tail.ptr.id].ptr != Null
    ensures r.heap == q.heap && r.head == q.head && r.log == q.log
    ensures r.tail.ptr == q.heap[q.tail.ptr.id].ptr
    ensures r.tail.ctr == q.tail.ctr + 1
  {
    q.(tail := Cas(q.tail, q.tail, q.heap[q.tail.ptr.id].ptr, 1).mem)
  }

  /** `tail.next` is NULL exactly when the queue is quiescent. */
  lemma LagIff(q: Queue, nodes: seq<NodeId>)
    requires Inv(q, nodes)
    ensures q.tail.ptr.Addr? && q.tail.ptr.id in q.heap
    ensures q.heap[q.tail.ptr.id].ptr == Null <==> Quiescent(q, nodes)
  {
    InvInHeap(q, nodes);
    var j := q.tail.ctr - q.head.ctr;
    assert Links(q.heap)[nodes[j]] == Next(nodes, j);
    QueuedCounts(q, nodes);
  }

  /**
    A helping step moves `tail` one element along the list and its counter
    by one, so "tail.ctr - head.ctr = position of tail" survives it.
  */
  lemma HelpTailStep(q: Queue, nodes: seq<NodeId>)
    requires Inv(q, nodes) && !Quiescent(q, nodes)
    ensures q.tail.ptr.Addr? && q.tail.ptr.id in q.heap && q.heap[q.tail.ptr.id].ptr != Null
    ensures Inv(HelpTail(q), nodes)
    ensures Queued(HelpTail(q)) == Queued(q) + 1
  {
    LagIff(q, nodes);
    var j := q.tail.ctr - q.head.ctr;
    assert Links(q.heap)[nodes[j]] == Next(nodes, j);
  }

  /**
    The `for (;;)` loop of an enqueue before its link succeeds: while
    `tail.next` is not NULL, help the tail forward.
  */
  function CatchUp(q: Queue, nodes: seq<NodeId>): (r: Queue)
    requires Inv(q, nodes)
    ensures Inv(r, nodes) && Quiescent(r, nodes)
    ensures r.heap == q.heap && r.head == q.head && r.log == q.log
    ensures r.tail.ctr == q.head.ctr + |nodes| - 1
    decreases |nodes| - Queued(q)
  {
    LagIff(q, nodes);
    if q.heap[q.tail.ptr.id].ptr == Null then
      QueuedCounts(q, nodes);
      q
    else
      HelpTailStep(q, nodes);
      CatchUp(HelpTail(q), nodes)
  }

  // ---------------------------------------------------------------------
  // Enqueue
  // ---------------------------------------------------------------------

  /**
    The walk at the start of `aq_enqueue_multi`: follow `next` from `el` to
    the last element of the chain, counting elements.
  */
  function FindLast(heap: Heap, el: NodeId, chain: seq<NodeId>): (r: (NodeId, int))
    requires IsChain(Links(heap), chain) && First(chain) == Addr(el)
    ensures r.0 == Last(chain) && r.1 == |chain|
    decreases |chain|
  {
    ChainRest(Links(heap), chain);
    assert el in Links(heap);
    match heap[el].ptr
    case Null => (el, 1)
    case Addr(n) =>
      var rest := FindLast(heap, n, chain[1..]);
      (rest.0, rest.1 + 1)
  }

  /**
    The insertion phase of `aq_enqueue_multi`: help the tail until it is on
    the last element, give the chain's last element the link counter
    (NULL, tail.ctr), then swing the last element's `next` from NULL to
    `el`. The chain is on the queue now, but `tail` lags behind it.
  */
  function Insert(q: Queue, el: NodeId, last: NodeId, nodes: seq<NodeId>, chain: seq<NodeId>): (r: Queue)
    requires Inv(q, nodes) && Admissible(q, nodes, chain, el) && last == Last(chain)
    ensures Inv(r, nodes + chain)
    ensures r.head == q.head && r.log == q.log
    ensures r.tail == Counted(Addr(Last(nodes)), q.head.ctr + |nodes| - 1)
    ensures r.heap.Keys == q.heap.Keys
    ensures r.heap[Last(nodes)] == Counted(Addr(el), q.heap[Last(nodes)].ctr + 1)
    ensures r.heap[last] == Counted(Null, r.tail.ctr)
    ensures forall n | n in q.heap && n != Last(nodes) && n != last :: r.heap[n] == q.heap[n]
  {
    var c := CatchUp(q, nodes);
    InvInHeap(c, nodes);
    var t := c.tail.ptr.id;
    var next := c.heap[t];
    assert last in Links(q.heap) && Links(q.heap)[last] == Null;
    assert t !in chain by {
      assert t == nodes[|nodes| - 1];
    }
    var heap1 := c.heap[last := Counted(Null, c.tail.ctr)];
    var cas := Cas(heap1[t], next, Addr(el), 1);
    var heap2 := heap1[t := cas.mem];
    LinksUpdate(c.heap, last, heap1[last]);
    assert Links(heap1) == Links(c.heap);
    LinksUpdate(heap1, t, cas.mem);
    ChainAppend(Links(c.heap), nodes, chain);
    var r := c.(heap := heap2);
    assert Inv(r, nodes + chain) by {
      assert (nodes + chain)[0] == nodes[0];
      assert (nodes + chain)[|nodes| - 1] == Last(nodes);
    }
    r
  }

  /**
    The final compare-and-swap of `aq_enqueue_multi`: move `tail` from the
    snapshot taken at link time to the chain's last element, adding the
    chain length. It fails, harmlessly, if anyone helped in the meantime.
  */
  function Swing(q: Queue, snap: Counted, last: NodeId, count: int): (r: Queue)
    requires count > 0
    ensures r.heap == q.heap && r.head == q.head && r.log == q.log
    ensures r.tail.ctr >= q.tail.ctr
    ensures r.tail != q.tail ==> q.tail == snap
  {
    q.(tail := Cas(q.tail, snap, Addr(last), count).mem)
  }

  /**
    Whatever helping happened since the link, the final swing keeps the
    counters in step with the list: if `tail` is still the snapshot it jumps
    to the chain's end, otherwise it stays where the helpers left it.
  */
  lemma SwingStep(q: Queue, nodes: seq<NodeId>, snap: Counted, count: int)
    requires Inv(q, nodes) && count > 0
    requires q.tail == snap ==> Queued(q) + count < |nodes|
    ensures q.tail == snap ==> Inv(Swing(q, snap, nodes[Queued(q) + count], count), nodes)
    ensures forall last :: q.tail != snap ==> Swing(q, snap, last, count) == q
  {
    if q.tail == snap {
      SwingSucceeds(q, nodes, count);
    } else {
      forall last
        ensures Swing(q, snap, last, count) == q
      {
        SwingFails(q, snap, last, count);
      }
    }
  }

  /** A swing from the current tail moves it `count` elements along the list. */
  lemma SwingSucceeds(q: Queue, nodes: seq<NodeId>, count: int)
    requires Inv(q, nodes) && count > 0
    requires Queued(q) + count < |nodes|
    ensures Inv(Swing(q, q.tail, nodes[Queued(q) + count], count), nodes)
  {
    var j := Queued(q) + count;
    SwingFresh(q, nodes[j], count);
    MoveTail(q, nodes, Counted(Addr(nodes[j]), q.tail.ctr + count));
  }

  /** A swing from a fresh snapshot puts `tail` on `last`, `count` further on. */
  lemma SwingFresh(q: Queue, last: NodeId, count: int)
    requires count > 0
    ensures Swing(q, q.tail, last, count) == q.(tail := Counted(Addr(last), q.tail.ctr + count))
  {
  }

  /** A swing from a stale snapshot changes nothing. */
  lemma SwingFails(q: Queue, snap: Counted, last: NodeId, count: int)
    requires q.tail != snap && count > 0
    ensures Swing(q, snap, last, count) == q
  {
    assert Swing(q, snap, last, count).tail == q.tail;
  }

  /**
    ABA at the tail: after even one helping step, the enqueuer's swing with
    its link-time snapshot fails and leaves the tail where the helper put it.
  */
  lemma HelpedSwingFails(q: Queue, last: NodeId, count: int)
    requires q.tail.ptr.Addr? && q.tail.ptr.id in q.heap
    requires q.heap[q.tail.ptr.id].ptr != Null
    requires count > 0
    ensures Swing(HelpTail(q), q.tail, last, count) == HelpTail(q)
  {
  }

  /**
    After the insertion phase, helping the tail once per inserted element
    leaves exactly the state the enqueuer's own swing would: the bookkeeping
    does not depend on who advances the tail.
  */
  lemma {:induction false} HelpingConverges(q: Queue, nodes: seq<NodeId>, k: nat)
    requires Inv(q, nodes) && Queued(q) + k == |nodes| - 1
    ensures HelpN(q, nodes, k).tail == Counted(Addr(Last(nodes)), q.tail.ctr + k)
    ensures k > 0 ==> HelpN(q, nodes, k) == Swing(q, q.tail, Last(nodes), k)
    decreases k
  {
    if k > 0 {
      HelpTailStep(q, nodes);
      HelpingConverges(HelpTail(q), nodes, k - 1);
    }
  }


  /** `k` helping steps in a row. */
  function HelpN(q: Queue, nodes: seq<NodeId>, k: nat): (r: Queue)
    requires Inv(q, nodes) && Queued(q) + k <= |nodes| - 1
    ensures Inv(r, nodes)
    ensures r.heap == q.heap && r.head == q.head && r.log == q.log
    ensures r.tail.ctr == q.tail.ctr + k
    decreases k
  {
    if k == 0 then q
    else
      HelpTailStep(q, nodes);
      HelpN(HelpTail(q), nodes, k - 1)
  }

  /** The swing right after the insertion phase succeeds and ends the lag. */
  lemma UncontendedSwing(ins: Queue, nodes: seq<NodeId>, chain: seq<NodeId>)
    requires |nodes| > 0 && |chain| > 0
    requires Inv(ins, nodes + chain)
    requires ins.tail == Counted(Addr(Last(nodes)), ins.head.ctr + |nodes| - 1)
    ensures var r := Swing(ins, ins.tail, Last(chain), |chain|);
            && Inv(r, nodes + chain) && Quiescent(r, nodes + chain)
            && r.tail.ctr == ins.head.ctr + |nodes| + |chain| - 1
            && r.heap == ins.heap && r.head == ins.head && r.log == ins.log
  {
    var all := nodes + chain;
    assert all[|all| - 1] == Last(chain);
    SwingStep(ins, all, ins.tail, |chain|);
  }

  /**
    `aq_enqueue_multi` run without interference: append the NULL-terminated
    chain starting at `el` after the last element, in chain order, move the
    tail to the chain's end, and return the new count of queued values.
    Nothing else on the list changes.
  */
  function EnqueueMulti(q: Queue, el: NodeId, nodes: seq<NodeId>, chain: seq<NodeId>): (r: Enqueued)
    requires Inv(q, nodes) && Admissible(q, nodes, chain, el)
    requires !Bit63(q.heap[el].ctr)
    ensures Inv(r.q, nodes + chain) && Quiescent(r.q, nodes + chain)
    ensures r.q.head == q.head && r.q.log == q.log
    ensures r.q.tail.ctr == q.head.ctr + |nodes| + |chain| - 1
    ensures r.size == |Contents(nodes + chain)|
    ensures r.q.heap.Keys == q.heap.Keys
    ensures r.q.heap[Last(nodes)] == Counted(Addr(el), q.heap[Last(nodes)].ctr + 1)
    ensures r.q.heap[Last(chain)] == Counted(Null, q.head.ctr + |nodes| - 1)
    ensures forall n | n in q.heap && n != Last(nodes) && n != Last(chain) :: r.q.heap[n] == q.heap[n]
  {
    var found := FindLast(q.heap, el, chain);
    var last := found.0;
    var count := found.1;
    var ins := Insert(q, el, last, nodes, chain);
    var snap := ins.tail;
    var q' := Swing(ins, snap, last, count);
    UncontendedSwing(ins, nodes, chain);
    Enqueued(q', Queued(q'))
  }

  /** `el->next.ptr = NULL`, keeping the counter. */
  function Cut(q: Queue, el: NodeId): (r: Queue)
    requires el in q.heap
    ensures r.head == q.head && r.tail == q.tail && r.log == q.log
    ensures Links(r.heap) == Links(q.heap)[el := Null]
    ensures r.heap.Keys == q.heap.Keys
    ensures forall n | n in q.heap :: r.heap[n].ctr == q.heap[n].ctr
    ensures forall n | n in q.heap && n != el :: r.heap[n] == q.heap[n]
  {
    var r := q.(heap := q.heap[el := q.heap[el].(ptr := Null)]);
    LinksUpdate(q.heap, el, r.heap[el]);
    r
  }

  /** Cutting the link of an element off the list makes it a one-element chain. */
  lemma CutLink(q: Queue, el: NodeId, nodes: seq<NodeId>)
    requires Inv(q, nodes) && el in q.heap && el !in nodes
    ensures Inv(Cut(q, el), nodes)
    ensures Admissible(Cut(q, el), nodes, [el], el)
  {
    var q1 := Cut(q, el);
    var links := Links(q1.heap);
    assert IsChain(links, nodes) by {
      ChainFrame(Links(q.heap), nodes, el, Null);
    }
    assert IsChain(links, [el]) by {
      assert links[el] == Null;
    }
    assert Disjoint(nodes, [el]);
    assert q1.head.ptr == Addr(nodes[0]);
    assert q1.tail.ptr == Addr(nodes[q1.tail.ctr - q1.head.ctr]);
  }

  /**
    `aq_enqueue`: cut `el`'s link to NULL and enqueue it as a one-element
    chain.
  */
  function Enqueue(q: Queue, el: NodeId, nodes: seq<NodeId>): (r: Enqueued)
    requires Inv(q, nodes) && el in q.heap && el !in nodes
    requires !Bit63(q.heap[el].ctr)
    ensures Inv(r.q, nodes + [el]) && Quiescent(r.q, nodes + [el])
    ensures r.q.head == q.head && r.q.log == q.log
    ensures r.q.tail.ctr == q.head.ctr + |nodes|
    ensures r.size == |Contents(nodes)| + 1
    ensures r.q.heap.Keys == q.heap.Keys
    ensures r.q.heap[Last(nodes)] == Counted(Addr(el), q.heap[Last(nodes)].ctr + 1)
    ensures r.q.heap[el] == Counted(Null, q.head.ctr + |nodes| - 1)
    ensures forall n | n in q.heap && n != Last(nodes) && n != el :: r.q.heap[n] == q.heap[n]
  {
    CutLink(q, el, nodes);
    EnqueueMulti(Cut(q, el), el, nodes, [el])
  }

  // ---------------------------------------------------------------------
  // Dequeue
  // ---------------------------------------------------------------------

  /**
    `aq_dequeue` run without interference. With nothing after the dummy it
    returns NULL and changes nothing. Otherwise, if `tail` still points at
    the dummy it first helps it forward, then swings `head` to the dummy's
    successor, which becomes the new dummy and is returned, and releases the
    displaced dummy with `aq_el_free`.
  */
  function Dequeue(q: Queue): (r: Taken)
    requires q.head.ptr.Addr? && q.head.ptr.id in q.heap
    ensures r.el == Null <==> Empty(q)
    ensures r.el == Null ==> r.q == q
    ensures r.el != Null ==>
      var h := q.head.ptr.id;
      && r.el == q.heap[h].ptr
      && r.q.head == Counted(r.el, q.head.ctr + 1)
      && r.q.tail == (if q.tail.ptr == q.head.ptr then Counted(r.el, q.tail.ctr + 1) else q.tail)
      && r.q.heap == ElFree(q, h).heap
      && r.q.log == ElFree(q, h).log
  {
    var h := q.head.ptr.id;
    var next := q.heap[h];
    if next.ptr == Null then Taken(q, Null)
    else
      var q1 := if q.head.ptr == q.tail.ptr then HelpTail(q) else q;
      var q2 := q1.(head := Cas(q1.head, q.head, next.ptr, 1).mem);
      Taken(ElFree(q2, h), next.ptr)
  }

  /** On an empty queue `aq_dequeue` returns NULL and changes nothing. */
  lemma DequeueEmpty(q: Queue, nodes: seq<NodeId>)
    requires Inv(q, nodes) && Contents(nodes) == []
    ensures q.head.ptr.Addr? && q.head.ptr.id in q.heap
    ensures Dequeue(q) == Taken(q, Null)
  {
    EmptyIff(q, nodes);
  }

  /**
    FIFO with dummy rotation: a dequeue from a non-empty queue returns the
    first queued element and makes it the new dummy, so the contents lose
    exactly their first element; `head.ctr` goes up by one and the counters
    still match positions (the tail is helped off the old dummy first if it
    was still there).
  */
  lemma DequeueStep(q: Queue, nodes: seq<NodeId>)
    requires Inv(q, nodes) && Contents(nodes) != []
    ensures q.head.ptr.Addr? && q.head.ptr.id in q.heap
    ensures Dequeue(q).el == Addr(Contents(nodes)[0])
    ensures Inv(Dequeue(q).q, nodes[1..])
    ensures Contents(nodes[1..]) == Contents(nodes)[1..]
    ensures Queued(Dequeue(q).q) == if Queued(q) == 0 then 0 else Queued(q) - 1
  {
    DequeueHead(q, nodes);
    DequeueTail(q, nodes);
  }

  /** The head side of a non-empty dequeue: it returns the dummy's successor and moves `head` onto it. */
  lemma DequeueHead(q: Queue, nodes: seq<NodeId>)
    requires Inv(q, nodes) && Contents(nodes) != []
    ensures q.head.ptr.Addr? && q.head.ptr.id in q.heap
    ensures Dequeue(q).el == Addr(nodes[1])
    ensures Dequeue(q).q.head == Counted(Addr(nodes[1]), q.head.ctr + 1)
    ensures |nodes[1..]| > 0 && Dequeue(q).q.head.ptr == Addr(nodes[1..][0]) && 0 <= Dequeue(q).q.head.ctr
    ensures IsChain(Links(Dequeue(q).q.heap), nodes[1..])
  {
    InvInHeap(q, nodes);
    EmptyIff(q, nodes);
    var links := Links(q.heap);
    assert links[nodes[0]] == Next(nodes, 0);
    var t := Dequeue(q);
    assert t.el == Addr(nodes[1]);
    assert IsChain(Links(t.q.heap), nodes[1..]) by {
      ChainRest(links, nodes);
      assert Links(t.q.heap) == links;
    }
  }

  /**
    The tail side of a non-empty dequeue: a tail still on the dummy is helped
    onto its successor, so it stays at the position its counter gives.
  */
  lemma DequeueTail(q: Queue, nodes: seq<NodeId>)
    requires Inv(q, nodes) && Contents(nodes) != []
    ensures q.head.ptr.Addr? && q.head.ptr.id in q.heap
    ensures Queued(Dequeue(q).q) == if Queued(q) == 0 then 0 else Queued(q) - 1
    ensures var r := Dequeue(q).q;
            && 0 <= r.tail.ctr - r.head.ctr < |nodes[1..]|
            && r.tail.ptr == Addr(nodes[1..][r.tail.ctr - r.head.ctr])
  {
    DequeueHead(q, nodes);
    var t := Dequeue(q);
    var rest := nodes[1..];
    if q.head.ptr == q.tail.ptr {
      assert Queued(q) == 0 by {
        assert nodes[Queued(q)] == nodes[0];
      }
      assert t.q.tail == Counted(Addr(rest[0]), q.tail.ctr + 1);
    } else {
      assert Queued(q) != 0;
      assert t.q.tail == q.tail;
      assert rest[Queued(q) - 1] == nodes[Queued(q)];
    }
  }

  /** A dequeue does not disturb quiescence. */
  lemma DequeueQuiescent(q: Queue, nodes: seq<NodeId>)
    requires Inv(q, nodes) && Contents(nodes) != [] && Quiescent(q, nodes)
    ensures q.head.ptr.Addr? && q.head.ptr.id in q.heap
    ensures Quiescent(Dequeue(q).q, nodes[1..])
  {
    DequeueStep(q, nodes);
    QueuedCounts(q, nodes);
  }

  // ---------------------------------------------------------------------
  // Teardown
  // ---------------------------------------------------------------------

  /**
    `aq_free`: with no other user left, swing `head` past every element on
    the list in order, calling the release callback directly on each (the
    dummy included, bypassing the flag), then reset head and tail to
    (NULL, 0).
  */
  function Free(q: Queue, nodes: seq<NodeId>): (r: Queue)
    requires IsChain(Links(q.heap), nodes) && q.head.ptr == First(nodes)
    ensures r.log == q.log + nodes
    ensures r.heap == q.heap
    ensures r.head == Counted(Null, 0) && r.tail == Counted(Null, 0)
    decreases |nodes|
  {
    match q.head.ptr
    case Null => q.(head := Counted(Null, 0), tail := Counted(Null, 0))
    case Addr(el) =>
      ChainRest(Links(q.heap), nodes);
      assert el in Links(q.heap);
      var cas := Cas(q.head, q.head, q.heap[el].ptr, 1);
      var r := Free(q.(head := cas.mem, log := q.log + [el]), nodes[1..]);
      AppendFront(q.log, nodes);
      r
  }

  // ---------------------------------------------------------------------
  // Runs of operations
  // ---------------------------------------------------------------------

  /** The values may be enqueued one by one onto a queue described by `nodes`. */
  ghost predicate Enqueueable(q: Queue, nodes: seq<NodeId>, es: seq<NodeId>) {
    && Distinct(es)
    && Disjoint(nodes, es)
    && (forall i | 0 <= i < |es| :: es[i] in q.heap && !Bit63(q.heap[es[i]].ctr))
  }

  /** Enqueueing the first value leaves the rest enqueueable. */
  lemma EnqueueFirst(q: Queue, nodes: seq<NodeId>, es: seq<NodeId>)
    requires Inv(q, nodes) && Enqueueable(q, nodes, es) && |es| > 0
    ensures es[0] in q.heap && es[0] !in nodes && !Bit63(q.heap[es[0]].ctr)
    ensures Enqueueable(Enqueue(q, es[0], nodes).q, nodes + [es[0]], es[1..])
    ensures nodes + [es[0]] + es[1..] == nodes + es
  {
    var e := es[0];
    PeelFresh(nodes, es);
    AppendFront(nodes, es);
    var heap1 := Enqueue(q, e, nodes).q.heap;
    var rest := es[1..];
    forall i | 0 <= i < |rest|
      ensures rest[i] in heap1 && !Bit63(heap1[rest[i]].ctr)
    {
      assert rest[i] == es[i + 1];
      assert es[i + 1] != Last(nodes) by {
        assert nodes[|nodes| - 1] != es[i + 1];
      }
      assert es[i + 1] != es[0];
      assert heap1[rest[i]] == q.heap[rest[i]];
    }
  }

  /** `aq_enqueue` of each value of `es` in turn. */
  function EnqueueEach(q: Queue, es: seq<NodeId>, nodes: seq<NodeId>): (r: Queue)
    requires Inv(q, nodes) && Enqueueable(q, nodes, es)
    ensures Inv(r, nodes + es)
    ensures r.head == q.head && r.log == q.log
    ensures |es| > 0 ==> Quiescent(r, nodes + es) && Queued(r) == |Contents(nodes)| + |es|
    decreases |es|
  {
    if |es| == 0 then
      assert nodes + es == nodes;
      q
    else
      EnqueueFirst(q, nodes, es);
      var q1 := Enqueue(q, es[0], nodes).q;
      var r := EnqueueEach(q1, es[1..], nodes + [es[0]]);
      QueuedCounts(q1, nodes + [es[0]]);
      QueuedCounts(r, nodes + es);
      r
  }

  /** Moving the first element of `s` to the end of `a`. */
  lemma AppendFront(a: seq<NodeId>, s: seq<NodeId>)
    requires |s| > 0
    ensures a + [s[0]] + s[1..] == a + s
  {
  }

  /** Index bookkeeping for peeling one element off the front. */
  lemma SliceStep(s: seq<NodeId>, n: nat)
    requires 1 <= n < |s|
    ensures s[1..][n - 1..] == s[n..]
    ensures [s[1]] + s[1..][1..n] == s[1..n + 1]
  {
  }

  /** `aq_dequeue` called `n` times, collecting the returned elements. */
  function DequeueN(q: Queue, n: nat, nodes: seq<NodeId>): (r: (Queue, seq<NodeId>))
    requires Inv(q, nodes) && n <= |Contents(nodes)|
    ensures r.1 == nodes[1..n + 1]
    ensures Inv(r.0, nodes[n..])
    ensures r.0.head.ctr == q.head.ctr + n
    decreases n
  {
    if n == 0 then (q, [])
    else
      DequeueStep(q, nodes);
      var t := Dequeue(q);
      var more := nodes[1..];
      var rest := DequeueN(t.q, n - 1, more);
      SliceStep(nodes, n);
      (rest.0, [t.el.id] + rest.1)
  }

  /**
    FIFO order: values enqueued one by one onto an empty queue come back
    from the same number of dequeues in the order they went in, and the
    queue is empty again.
  */
  lemma Fifo(q: Queue, dummy: NodeId, es: seq<NodeId>)
    requires Inv(q, [dummy]) && Enqueueable(q, [dummy], es)
    ensures var r := DequeueN(EnqueueEach(q, es, [dummy]), |es|, [dummy] + es);
            r.1 == es && Contents(([dummy] + es)[|es|..]) == []
  {
    var all := [dummy] + es;
    var q1 := EnqueueEach(q, es, [dummy]);
    DummyFront(dummy, es);
    var r := DequeueN(q1, |es|, all);
    assert r.1 == es;
  }

  /** Index bookkeeping for a queue whose dummy is followed by `es`. */
  lemma DummyFront(dummy: NodeId, es: seq<NodeId>)
    ensures |Contents([dummy] + es)| == |es|
    ensures ([dummy] + es)[1..|es| + 1] == es
    ensures |([dummy] + es)[|es|..]| == 1
  {
  }
}
