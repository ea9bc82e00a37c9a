/**
  Exactly-once release of queue elements.

  Every element that goes through the queue is handed to the release
  callback once, by whichever of three paths comes last: the toggle a
  dequeue applies to the dummy it displaces, the caller's own `aq_el_free`
  on an element it dequeued, or the final `aq_free`. The two toggles an
  element receives (one when it stops being the dummy, one from the caller)
  meet on bit 63 of its link counter, and only the second fires.

  A `World` is the queue together with the bookkeeping an observer needs:
  `held` is the set of elements the caller has dequeued and not yet passed
  to `aq_el_free`, and `admitted` every element that was ever handed to the
  queue (the initial dummy and all enqueued elements).
*/
module ReleaseProtocol {
  import opened CountedPtr
  import opened Chains
  import opened ReleaseBit
  import opened AtomicQueue

  datatype World = World(q: Queue, held: set<NodeId>, admitted: set<NodeId>)

  /** The elements of a sequence. */
  function Elems(s: seq<NodeId>): set<NodeId> {
    set x | x in s
  }

  /** The elements of a non-empty sequence: its first and the rest. */
  lemma ElemsCons(s: seq<NodeId>)
    requires |s| > 0
    ensures Elems(s) == {s[0]} + Elems(s[1..])
  {
    forall x | x in Elems(s)
      ensures x == s[0] || x in Elems(s[1..])
    {
      var i :| 0 <= i < |s| && s[i] == x;
      if i > 0 {
        assert s[1..][i - 1] == x;
      }
    }
  }

  /** The elements of a sequence with one more at the end. */
  lemma ElemsSnoc(s: seq<NodeId>, x: NodeId)
    ensures Elems(s + [x]) == Elems(s) + {x}
  {
    assert (s + [x])[|s|] == x;
    forall y | y in Elems(s)
      ensures y in Elems(s + [x])
    {
      var i :| 0 <= i < |s| && s[i] == y;
      assert (s + [x])[i] == y;
    }
  }

  // ---------------------------------------------------------------------
  // The invariant, one concern per predicate
  // ---------------------------------------------------------------------

  /** The elements on the list and the held ones are in memory. */
  ghost predicate InMemory(w: World, nodes: seq<NodeId>) {
    && (forall i | 0 <= i < |nodes| :: nodes[i] in w.q.heap)
    && (forall n | n in w.held :: n in w.q.heap)
  }

  /** Nothing was released twice, and nothing on the list was released. */
  ghost predicate LogFresh(w: World, nodes: seq<NodeId>) {
    Distinct(w.q.log) && Disjoint(nodes, w.q.log)
  }

  /**
    The flags: queued values are neither held nor flagged; the dummy is
    flagged exactly when the caller does not hold it; a held element that is
    off the list has been toggled once and not released.
  */
  ghost predicate FlagsAgree(w: World, nodes: seq<NodeId>)
    requires |nodes| > 0 && InMemory(w, nodes)
  {
    && (forall i | 1 <= i < |nodes| :: !Bit63(w.q.heap[nodes[i]].ctr) && nodes[i] !in w.held)
    && (Bit63(w.q.heap[nodes[0]].ctr) <==> nodes[0] !in w.held)
    && (forall n | n in w.held && n !in nodes :: Bit63(w.q.heap[n].ctr) && n !in w.q.log)
  }

  /** Every admitted element is on the list, held, or released. */
  ghost predicate Accounted(w: World, nodes: seq<NodeId>) {
    w.admitted == Elems(nodes) + w.held + Elems(w.q.log)
  }

  /**
    The last element's link counter has room for the +1 of the next append:
    its low bits never exceed `tail.ctr`.
  */
  ghost predicate LinkRoom(w: World, nodes: seq<NodeId>)
    requires |nodes| > 0 && InMemory(w, nodes)
  {
    Low(w.q.heap[Last(nodes)].ctr) <= w.q.tail.ctr
  }

  ghost predicate ReleaseInv(w: World, nodes: seq<NodeId>) {
    && Inv(w.q, nodes)
    && InMemory(w, nodes)
    && LogFresh(w, nodes)
    && FlagsAgree(w, nodes)
    && Accounted(w, nodes)
    && LinkRoom(w, nodes)
  }

  /** A sequence without repetitions names each of its elements once. */
  lemma {:induction false} DistinctOnce(s: seq<NodeId>)
    requires Distinct(s)
    ensures forall n | n in s :: multiset(s)[n] == 1
    decreases |s|
  {
    if |s| > 0 {
      var t := s[1..];
      assert Distinct(t);
      DistinctOnce(t);
      assert s == [s[0]] + t;
      forall j | 0 <= j < |t|
        ensures t[j] != s[0]
      {
        assert t[j] == s[j + 1];
      }
      forall n | n in s
        ensures multiset(s)[n] == 1
      {
        assert multiset(s) == multiset{s[0]} + multiset(t);
      }
    }
  }

  // ---------------------------------------------------------------------
  // Transitions
  // ---------------------------------------------------------------------

  /** `aq_init` with a dummy that the queue now owns. */
  function WInit(heap: Heap, dummy: NodeId): World
    requires dummy in heap
  {
    World(Init(heap, dummy), {}, {dummy})
  }

  /** `aq_enqueue_multi` of the chain starting at `el`. */
  function WEnqueueMulti(w: World, el: NodeId, nodes: seq<NodeId>, chain: seq<NodeId>): World
    requires Inv(w.q, nodes) && Admissible(w.q, nodes, chain, el)
    requires !Bit63(w.q.heap[el].ctr)
  {
    World(EnqueueMulti(w.q, el, nodes, chain).q, w.held, w.admitted + Elems(chain))
  }

  /** `aq_enqueue` of `el`. */
  function WEnqueue(w: World, el: NodeId, nodes: seq<NodeId>): World
    requires Inv(w.q, nodes) && el in w.q.heap && el !in nodes
    requires !Bit63(w.q.heap[el].ctr)
  {
    World(Enqueue(w.q, el, nodes).q, w.held, w.admitted + {el})
  }

  /** `aq_dequeue`: a returned element is held by the caller from now on. */
  function WDequeue(w: World): World
    requires w.q.head.ptr.Addr? && w.q.head.ptr.id in w.q.heap
  {
    var t := Dequeue(w.q);
    World(t.q, if t.el == Null then w.held else w.held + {t.el.id}, w.admitted)
  }

  /** The caller's `aq_el_free` on an element it dequeued. */
  function WRelease(w: World, el: NodeId): World
    requires el in w.held && el in w.q.heap
  {
    World(ElFree(w.q, el), w.held - {el}, w.admitted)
  }

  /** A chain of elements the queue has never seen, all fresh from `aq_el_init`. */
  ghost predicate FreshChain(w: World, chain: seq<NodeId>, el: NodeId) {
    && |chain| > 0
    && chain[0] == el
    && IsChain(Links(w.q.heap), chain)
    && (forall i | 0 <= i < |chain| :: chain[i] in w.q.heap && chain[i] !in w.admitted)
    && (forall i | 0 <= i < |chain| :: !Bit63(w.q.heap[chain[i]].ctr))
  }

  // ---------------------------------------------------------------------
  // The invariant holds initially and is preserved
  // ---------------------------------------------------------------------

  lemma InitEstablishes(heap: Heap, dummy: NodeId)
    requires dummy in heap
    ensures ReleaseInv(WInit(heap, dummy), [dummy])
  {
    var w := WInit(heap, dummy);
    assert Elems([dummy]) == {dummy};
    assert Low(FLAG) == 0;
  }

  /**
    A released element cannot come back to the list: an element on the list
    was never released, so the chain's freshness gives disjointness.
  */
  lemma FreshDisjoint(w: World, nodes: seq<NodeId>, chain: seq<NodeId>, el: NodeId)
    requires ReleaseInv(w, nodes) && FreshChain(w, chain, el)
    ensures Admissible(w.q, nodes, chain, el)
    ensures !Bit63(w.q.heap[el].ctr)
    ensures forall i | 0 <= i < |chain| :: chain[i] !in w.held && chain[i] !in w.q.log
  {
    forall i, j | 0 <= i < |nodes| && 0 <= j < |chain|
      ensures nodes[i] != chain[j]
    {
      assert nodes[i] in Elems(nodes);
    }
    forall i | 0 <= i < |chain|
      ensures chain[i] !in w.held && chain[i] !in w.q.log
    {
      assert chain[i] !in Elems(w.q.log);
    }
  }

  /** Flag and counter facts about the memory an enqueue leaves behind. */
  lemma EnqueueFlags(w: World, nodes: seq<NodeId>, chain: seq<NodeId>, el: NodeId)
    requires ReleaseInv(w, nodes) && FreshChain(w, chain, el)
    requires w.q.head.ctr + |nodes| + |chain| - 1 < FLAG
    ensures Admissible(w.q, nodes, chain, el) && !Bit63(w.q.heap[el].ctr)
    ensures var h := EnqueueMulti(w.q, el, nodes, chain).q.heap;
            && Bit63(h[Last(nodes)].ctr) == Bit63(w.q.heap[Last(nodes)].ctr)
            && !Bit63(h[Last(chain)].ctr)
            && Low(h[Last(chain)].ctr) == w.q.head.ctr + |nodes| - 1
  {
    FreshDisjoint(w, nodes, chain, el);
    var h := EnqueueMulti(w.q, el, nodes, chain).q.heap;
    var last := Last(nodes);
    QueuedCounts(w.q, nodes);
    AppendRoom(w.q.heap[last].ctr, h[last].ctr, w.q.tail.ctr, w.q.head.ctr + |nodes| - 1);
    SmallWord(h[Last(chain)].ctr);
  }

  /**
    The +1 on the old last element's link counter cannot carry into bit 63
    while its low bits stay below the tail counter and the new tail counter
    stays below 1 << 63.
  */
  lemma AppendRoom(c: int, c': int, tail: int, bound: int)
    requires Low(c) <= tail <= bound && bound + 1 < FLAG && c' == c + 1
    ensures Bit63(c') == Bit63(c)
  {
    IncrementKeepsFlag(c);
  }

  /**
    `aq_enqueue_multi` keeps the invariant, as long as the counters stay
    below bit 63.
  */
  lemma EnqueueMultiPreserves(w: World, nodes: seq<NodeId>, chain: seq<NodeId>, el: NodeId)
    requires ReleaseInv(w, nodes) && FreshChain(w, chain, el)
    requires w.q.head.ctr + |nodes| + |chain| - 1 < FLAG
    ensures Admissible(w.q, nodes, chain, el) && !Bit63(w.q.heap[el].ctr)
    ensures ReleaseInv(WEnqueueMulti(w, el, nodes, chain), nodes + chain)
  {
    FreshDisjoint(w, nodes, chain, el);
    EnqueueLog(w, nodes, chain, el);
    EnqueueFlagsAgree(w, nodes, chain, el);
    EnqueueAccounted(w, nodes, chain, el);
  }

  /** The appended elements were never released. */
  lemma EnqueueLog(w: World, nodes: seq<NodeId>, chain: seq<NodeId>, el: NodeId)
    requires ReleaseInv(w, nodes) && FreshChain(w, chain, el)
    requires w.q.head.ctr + |nodes| + |chain| - 1 < FLAG
    ensures Admissible(w.q, nodes, chain, el) && !Bit63(w.q.heap[el].ctr)
    ensures LogFresh(WEnqueueMulti(w, el, nodes, chain), nodes + chain)
  {
    FreshDisjoint(w, nodes, chain, el);
    var log := WEnqueueMulti(w, el, nodes, chain).q.log;
    var all := nodes + chain;
    assert log == w.q.log;
    forall i, j | 0 <= i < |all| && 0 <= j < |log|
      ensures all[i] != log[j]
    {
      if i >= |nodes| {
        assert all[i] == chain[i - |nodes|];
        assert chain[i - |nodes|] !in w.q.log;
      } else {
        assert all[i] == nodes[i];
      }
    }
  }

  /** The appended elements are queued values: in memory, unflagged, not held. */
  lemma EnqueueFlagsAgree(w: World, nodes: seq<NodeId>, chain: seq<NodeId>, el: NodeId)
    requires ReleaseInv(w, nodes) && FreshChain(w, chain, el)
    requires w.q.head.ctr + |nodes| + |chain| - 1 < FLAG
    ensures Admissible(w.q, nodes, chain, el) && !Bit63(w.q.heap[el].ctr)
    ensures InMemory(WEnqueueMulti(w, el, nodes, chain), nodes + chain)
    ensures FlagsAgree(WEnqueueMulti(w, el, nodes, chain), nodes + chain)
  {
    FreshDisjoint(w, nodes, chain, el);
    EnqueueFlags(w, nodes, chain, el);
    var w' := WEnqueueMulti(w, el, nodes, chain);
    var all := nodes + chain;
    var h := w'.q.heap;
    assert InMemory(w', all) by {
      forall i | 0 <= i < |all|
        ensures all[i] in h
      {
        if i >= |nodes| {
          assert all[i] == chain[i - |nodes|];
        }
      }
    }
    forall i | 1 <= i < |all|
      ensures !Bit63(h[all[i]].ctr) && all[i] !in w'.held
    {
      if i < |nodes| {
        assert all[i] == nodes[i];
        if nodes[i] != Last(nodes) {
          assert nodes[i] != Last(chain);
        }
      } else {
        assert all[i] == chain[i - |nodes|];
        if chain[i - |nodes|] != Last(chain) {
          assert chain[i - |nodes|] != Last(nodes);
        }
      }
    }
    assert all[0] == nodes[0];
    assert nodes[0] != Last(chain);
    forall n | n in w'.held && n !in all
      ensures Bit63(h[n].ctr) && n !in w'.q.log
    {
      assert n != Last(nodes) && n != Last(chain);
    }
  }

  /** The elements of two sequences put together. */
  lemma ElemsAppend(a: seq<NodeId>, b: seq<NodeId>)
    ensures Elems(a + b) == Elems(a) + Elems(b)
  {
    forall x | x in Elems(a + b)
      ensures x in Elems(a) || x in Elems(b)
    {
      var i :| 0 <= i < |a + b| && (a + b)[i] == x;
      if i >= |a| {
        assert b[i - |a|] == x;
      }
    }
  }

  /** The appended elements join the admitted ones; the new last one has room. */
  lemma EnqueueAccounted(w: World, nodes: seq<NodeId>, chain: seq<NodeId>, el: NodeId)
    requires ReleaseInv(w, nodes) && FreshChain(w, chain, el)
    requires w.q.head.ctr + |nodes| + |chain| - 1 < FLAG
    ensures Admissible(w.q, nodes, chain, el) && !Bit63(w.q.heap[el].ctr)
    ensures InMemory(WEnqueueMulti(w, el, nodes, chain), nodes + chain)
    ensures Accounted(WEnqueueMulti(w, el, nodes, chain), nodes + chain)
    ensures LinkRoom(WEnqueueMulti(w, el, nodes, chain), nodes + chain)
  {
    EnqueueFlagsAgree(w, nodes, chain, el);
    EnqueueFlags(w, nodes, chain, el);
    ElemsAppend(nodes, chain);
    assert Last(nodes + chain) == Last(chain);
  }

  /** `aq_enqueue` keeps the invariant: it is the one-element case after cutting the link. */
  lemma EnqueuePreserves(w: World, nodes: seq<NodeId>, el: NodeId)
    requires ReleaseInv(w, nodes)
    requires el in w.q.heap && el !in w.admitted && !Bit63(w.q.heap[el].ctr)
    requires w.q.head.ctr + |nodes| < FLAG
    ensures el !in nodes
    ensures ReleaseInv(WEnqueue(w, el, nodes), nodes + [el])
  {
    CutPreserves(w, nodes, el);
    var w1 := World(Cut(w.q, el), w.held, w.admitted);
    EnqueueMultiPreserves(w1, nodes, [el], el);
    assert Elems([el]) == {el};
    assert WEnqueue(w, el, nodes) == WEnqueueMulti(w1, el, nodes, [el]);
  }

  /**
    Cutting the link of a fresh element keeps the invariant (no counter
    changes) and makes the element a fresh one-element chain.
  */
  lemma CutPreserves(w: World, nodes: seq<NodeId>, el: NodeId)
    requires ReleaseInv(w, nodes)
    requires el in w.q.heap && el !in w.admitted && !Bit63(w.q.heap[el].ctr)
    ensures el !in nodes
    ensures ReleaseInv(World(Cut(w.q, el), w.held, w.admitted), nodes)
    ensures FreshChain(World(Cut(w.q, el), w.held, w.admitted), [el], el)
  {
    assert el !in nodes by {
      assert forall i | 0 <= i < |nodes| :: nodes[i] in Elems(nodes);
    }
    CutLink(w.q, el, nodes);
    var w1 := World(Cut(w.q, el), w.held, w.admitted);
    var h := w1.q.heap;
    assert InMemory(w1, nodes);
    assert LogFresh(w1, nodes);
    assert FlagsAgree(w1, nodes) by {
      forall i | 0 <= i < |nodes|
        ensures h[nodes[i]].ctr == w.q.heap[nodes[i]].ctr
      {
      }
      forall n | n in w.held
        ensures h[n].ctr == w.q.heap[n].ctr
      {
      }
    }
    assert Accounted(w1, nodes);
    assert LinkRoom(w1, nodes) by {
      assert h[Last(nodes)].ctr == w.q.heap[Last(nodes)].ctr;
    }
  }

  /**
    A dequeue keeps the invariant. The displaced dummy's toggle releases it
    exactly when nobody holds it: the initial dummy, or an element whose
    caller already called `aq_el_free`.
  */
  lemma DequeuePreserves(w: World, nodes: seq<NodeId>)
    requires ReleaseInv(w, nodes) && Contents(nodes) != []
    ensures w.q.head.ptr.Addr? && w.q.head.ptr.id in w.q.heap
    ensures ReleaseInv(WDequeue(w), nodes[1..])
    ensures WDequeue(w).held == w.held + {nodes[1]}
    ensures WDequeue(w).q.log == if nodes[0] in w.held then w.q.log else w.q.log + [nodes[0]]
  {
    DequeueStep(w.q, nodes);
    DequeueMemory(w, nodes);
    DequeueLog(w, nodes);
    DequeueFlags(w, nodes);
    DequeueAccounted(w, nodes);
  }

  /** What a non-empty dequeue does to memory, the log and the held set. */
  lemma DequeueMemory(w: World, nodes: seq<NodeId>)
    requires ReleaseInv(w, nodes) && Contents(nodes) != []
    ensures w.q.head.ptr.Addr? && w.q.head.ptr.id in w.q.heap
    ensures nodes[0] in w.q.heap
    ensures var w' := WDequeue(w);
            && w'.held == w.held + {nodes[1]}
            && w'.q.heap.Keys == w.q.heap.Keys
            && (forall n | n in w.q.heap && n != nodes[0] :: w'.q.heap[n] == w.q.heap[n])
            && Bit63(w'.q.heap[nodes[0]].ctr) == !Bit63(w.q.heap[nodes[0]].ctr)
            && w'.q.log == (if nodes[0] in w.held then w.q.log else w.q.log + [nodes[0]])
            && w'.q.tail.ctr >= w.q.tail.ctr
  {
    DequeueStep(w.q, nodes);
    assert w.q.head.ptr.id == nodes[0];
  }

  /** The displaced dummy is released at most once and leaves the list. */
  lemma DequeueLog(w: World, nodes: seq<NodeId>)
    requires ReleaseInv(w, nodes) && Contents(nodes) != []
    ensures w.q.head.ptr.Addr? && w.q.head.ptr.id in w.q.heap
    ensures LogFresh(WDequeue(w), nodes[1..])
  {
    DequeueMemory(w, nodes);
    var d := nodes[0];
    var log := WDequeue(w).q.log;
    var rest := nodes[1..];
    assert d !in w.q.log by {
      assert d == nodes[0];
    }
    forall i, j | 0 <= i < |rest| && 0 <= j < |log|
      ensures rest[i] != log[j]
    {
      assert rest[i] == nodes[i + 1];
      if j == |w.q.log| {
        assert log[j] == d;
      }
    }
  }

  /** The flags after a dequeue: the new dummy is held, the old one toggled. */
  lemma DequeueFlags(w: World, nodes: seq<NodeId>)
    requires ReleaseInv(w, nodes) && Contents(nodes) != []
    ensures w.q.head.ptr.Addr? && w.q.head.ptr.id in w.q.heap
    ensures InMemory(WDequeue(w), nodes[1..])
    ensures FlagsAgree(WDequeue(w), nodes[1..])
  {
    DequeueInMemory(w, nodes);
    DequeueQueuedFlags(w, nodes);
    DequeueHeldFlags(w, nodes);
  }

  /** After a dequeue the list and the held elements are still in memory. */
  lemma DequeueInMemory(w: World, nodes: seq<NodeId>)
    requires ReleaseInv(w, nodes) && Contents(nodes) != []
    ensures w.q.head.ptr.Addr? && w.q.head.ptr.id in w.q.heap
    ensures InMemory(WDequeue(w), nodes[1..])
  {
    DequeueMemory(w, nodes);
    var rest := nodes[1..];
    var h := WDequeue(w).q.heap;
    forall i | 0 <= i < |rest|
      ensures rest[i] in h
    {
      assert rest[i] == nodes[i + 1];
    }
  }

  /** After a dequeue the queued values are unflagged and unheld, and the new dummy is held. */
  lemma DequeueQueuedFlags(w: World, nodes: seq<NodeId>)
    requires ReleaseInv(w, nodes) && Contents(nodes) != []
    ensures w.q.head.ptr.Addr? && w.q.head.ptr.id in w.q.heap
    ensures InMemory(WDequeue(w), nodes[1..])
    ensures var h := WDequeue(w).q.heap;
            && (forall i | 1 <= i < |nodes[1..]| :: !Bit63(h[nodes[1..][i]].ctr) && nodes[1..][i] !in WDequeue(w).held)
            && (Bit63(h[nodes[1..][0]].ctr) <==> nodes[1..][0] !in WDequeue(w).held)
  {
    DequeueInMemory(w, nodes);
    DequeueMemory(w, nodes);
    var d := nodes[0];
    assert nodes[1] != d;
    var w' := WDequeue(w);
    var rest := nodes[1..];
    var h := w'.q.heap;
    forall i | 1 <= i < |rest|
      ensures !Bit63(h[rest[i]].ctr) && rest[i] !in w'.held
    {
      assert rest[i] == nodes[i + 1];
      assert nodes[i + 1] != nodes[1] && nodes[i + 1] != d;
    }
    assert rest[0] == nodes[1];
    assert h[nodes[1]] == w.q.heap[nodes[1]];
  }

  /** After a dequeue every held element off the list is flagged and unreleased. */
  lemma DequeueHeldFlags(w: World, nodes: seq<NodeId>)
    requires ReleaseInv(w, nodes) && Contents(nodes) != []
    ensures w.q.head.ptr.Addr? && w.q.head.ptr.id in w.q.heap
    ensures InMemory(WDequeue(w), nodes[1..])
    ensures var w' := WDequeue(w);
            forall n | n in w'.held && n !in nodes[1..] :: Bit63(w'.q.heap[n].ctr) && n !in w'.q.log
  {
    DequeueInMemory(w, nodes);
    DequeueMemory(w, nodes);
    var d := nodes[0];
    var w' := WDequeue(w);
    var rest := nodes[1..];
    forall n | n in w'.held && n !in rest
      ensures Bit63(w'.q.heap[n].ctr) && n !in w'.q.log
    {
      if n != d {
        assert n !in nodes by {
          forall i | 1 <= i < |nodes|
            ensures nodes[i] != n
          {
            assert nodes[i] == rest[i - 1];
          }
        }
      }
    }
  }

  /**
    The accounting identity survives a dequeue: the new dummy moves from the
    list to the held set (staying on the list too), and the old dummy leaves
    the list for the held set or the log.
  */
  lemma AccountShift(admitted: set<NodeId>, nodes: seq<NodeId>, held: set<NodeId>, log: seq<NodeId>,
                     held': set<NodeId>, log': seq<NodeId>)
    requires |nodes| > 1
    requires admitted == Elems(nodes) + held + Elems(log)
    requires held' == held + {nodes[1]}
    requires log' == if nodes[0] in held then log else log + [nodes[0]]
    ensures admitted == Elems(nodes[1..]) + held' + Elems(log')
  {
    var d := nodes[0];
    var rest := nodes[1..];
    ElemsCons(nodes);
    assert nodes[1] in Elems(rest) by {
      assert rest[0] == nodes[1];
    }
    if d !in held {
      ElemsSnoc(log, d);
    }
  }

  /** Accounting and counter room after a dequeue. */
  lemma DequeueAccounted(w: World, nodes: seq<NodeId>)
    requires ReleaseInv(w, nodes) && Contents(nodes) != []
    ensures w.q.head.ptr.Addr? && w.q.head.ptr.id in w.q.heap
    ensures InMemory(WDequeue(w), nodes[1..])
    ensures Accounted(WDequeue(w), nodes[1..])
    ensures LinkRoom(WDequeue(w), nodes[1..])
  {
    DequeueMemory(w, nodes);
    DequeueFlags(w, nodes);
    var w' := WDequeue(w);
    AccountShift(w.admitted, nodes, w.held, w.q.log, w'.held, w'.q.log);
    assert Last(nodes[1..]) == Last(nodes) && Last(nodes) != nodes[0];
  }

  /** A dequeue from an empty queue changes nothing. */
  lemma DequeueEmptyPreserves(w: World, nodes: seq<NodeId>)
    requires ReleaseInv(w, nodes) && Contents(nodes) == []
    ensures w.q.head.ptr.Addr? && w.q.head.ptr.id in w.q.heap
    ensures WDequeue(w) == w
  {
    DequeueEmpty(w.q, nodes);
  }

  /**
    The caller's `aq_el_free` keeps the invariant. It releases the element
    exactly when it has already been displaced, and otherwise, while it is
    still the dummy, leaves the release to the dequeue that displaces it.
  */
  lemma ReleasePreserves(w: World, nodes: seq<NodeId>, el: NodeId)
    requires ReleaseInv(w, nodes) && el in w.held
    ensures el in w.q.heap
    ensures ReleaseInv(WRelease(w, el), nodes)
    ensures WRelease(w, el).q.log == if el == nodes[0] then w.q.log else w.q.log + [el]
  {
    var w' := WRelease(w, el);
    InvFrame(w.q, w'.q, nodes);
    ReleaseLog(w, nodes, el);
    ReleaseFlags(w, nodes, el);
    assert InMemory(w', nodes);
    assert Accounted(w', nodes);
    assert LinkRoom(w', nodes);
  }

  /** A held element on the list can only be the dummy. */
  lemma HeldOnList(w: World, nodes: seq<NodeId>, el: NodeId)
    requires |nodes| > 0 && InMemory(w, nodes) && FlagsAgree(w, nodes)
    requires el in w.held
    ensures el in nodes ==> el == nodes[0]
  {
  }

  /** The log side of `aq_el_free` on a held element. */
  lemma ReleaseLog(w: World, nodes: seq<NodeId>, el: NodeId)
    requires ReleaseInv(w, nodes) && el in w.held
    ensures el in w.q.heap
    ensures LogFresh(WRelease(w, el), nodes)
    ensures WRelease(w, el).q.log == if el == nodes[0] then w.q.log else w.q.log + [el]
  {
    HeldOnList(w, nodes, el);
    var log := WRelease(w, el).q.log;
    if el != nodes[0] {
      assert log == w.q.log + [el];
      forall i, j | 0 <= i < |nodes| && 0 <= j < |log|
        ensures nodes[i] != log[j]
      {
        if j == |w.q.log| {
          assert log[j] == el;
        }
      }
    }
  }

  /** The flag side of `aq_el_free` on a held element. */
  lemma ReleaseFlags(w: World, nodes: seq<NodeId>, el: NodeId)
    requires ReleaseInv(w, nodes) && el in w.held
    ensures el in w.q.heap
    ensures InMemory(WRelease(w, el), nodes)
    ensures FlagsAgree(WRelease(w, el), nodes)
  {
    HeldOnList(w, nodes, el);
    var w' := WRelease(w, el);
    var h := w'.q.heap;
    forall i | 1 <= i < |nodes|
      ensures !Bit63(h[nodes[i]].ctr) && nodes[i] !in w'.held
    {
      assert nodes[i] != el;
    }
  }

  // ---------------------------------------------------------------------
  // Teardown
  // ---------------------------------------------------------------------

  /**
    Exactly once: when the caller has given back everything it dequeued,
    `aq_free` completes the log so that every admitted element appears in
    it exactly once.
  */
  lemma ExactlyOnce(w: World, nodes: seq<NodeId>)
    requires ReleaseInv(w, nodes) && w.held == {}
    ensures IsChain(Links(w.q.heap), nodes) && w.q.head.ptr == First(nodes)
    ensures var log := Free(w.q, nodes).log;
            && Distinct(log)
            && Elems(log) == w.admitted
            && (forall n | n in w.admitted :: multiset(log)[n] == 1)
  {
    assert Distinct(nodes);
    assert w.admitted == Elems(nodes) + Elems(w.q.log);
    TeardownLog(w.q, nodes, w.admitted);
  }

  /** The log `aq_free` leaves: what was released before, then the list. */
  lemma TeardownLog(q: Queue, nodes: seq<NodeId>, admitted: set<NodeId>)
    requires IsChain(Links(q.heap), nodes) && q.head.ptr == First(nodes)
    requires Distinct(nodes) && Distinct(q.log) && Disjoint(nodes, q.log)
    requires admitted == Elems(nodes) + Elems(q.log)
    ensures var log := Free(q, nodes).log;
            && Distinct(log)
            && Elems(log) == admitted
            && (forall n | n in admitted :: multiset(log)[n] == 1)
  {
    var log := Free(q, nodes).log;
    assert log == q.log + nodes;
    DistinctAppend(q.log, nodes);
    ElemsAppend(q.log, nodes);
    DistinctOnce(log);
  }
}
