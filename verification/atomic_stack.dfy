/**
  The lock-free LIFO stack: a single counted pointer `first` to a
  NULL-terminated list of entries linked through their `next` fields.

  A push links the new entry in front of the observed top and swings
  `first` to it; a pop swings `first` to the top entry's successor. Both use
  the counted compare-and-swap with increment 1, so every successful step
  advances `first.ctr`. Each operation is modelled as its uncontended run:
  the retry loops succeed on their first iteration.
*/
module AtomicStack {
  import opened CountedPtr
  import opened Chains

  /** Every entry's `next` pointer. */
  type Links = map<NodeId, Ptr>

  /** `struct as_head` together with the entries it can reach. */
  datatype Stack = Stack(heap: Links, first: Counted)

  /** Result of a pop: the new state and the entry returned (or NULL). */
  datatype Popped = Popped(s: Stack, el: Ptr)

  /** The abstraction: `nodes` is the list from `first`, top first. */
  ghost predicate Inv(s: Stack, nodes: seq<NodeId>) {
    IsChain(s.heap, nodes) && s.first.ptr == First(nodes)
  }

  /** `as_init`: `first` becomes (NULL, 0). */
  function Init(heap: Links): (s: Stack)
    ensures Inv(s, [])
    ensures s.first == Counted(Null, 0) && s.heap == heap
  {
    Stack(heap, Counted(Null, 0))
  }

  /** `as_empty`. */
  predicate Empty(s: Stack) {
    s.first.ptr == Null
  }

  /** `as_empty` holds exactly when no entry is on the stack. */
  lemma EmptyIff(s: Stack, nodes: seq<NodeId>)
    requires Inv(s, nodes)
    ensures Empty(s) <==> nodes == []
  {
  }

  /**
    `as_push`: point `e->next` at the observed top and swing `first` to `e`,
    adding one to its counter. The entry must not already be the top.
  */
  function Push(s: Stack, e: NodeId): (r: Stack)
    requires e in s.heap
    requires s.first.ptr != Addr(e)
    ensures r.first == Counted(Addr(e), s.first.ctr + 1)
    ensures r.heap.Keys == s.heap.Keys && r.heap[e] == s.first.ptr
    ensures forall n | n in s.heap && n != e :: r.heap[n] == s.heap[n]
  {
    var oldhead := s.first;
    var heap' := s.heap[e := oldhead.ptr];
    Stack(heap', Cas(s.first, oldhead, Addr(e), 1).mem)
  }

  /**
    `as_pop`: on an empty stack return NULL; otherwise swing `first` to the
    top entry's successor, adding one to the counter, and return the top.
  */
  function Pop(s: Stack): (r: Popped)
    requires s.first.ptr.Addr? ==> s.first.ptr.id in s.heap
    ensures r.el == s.first.ptr
    ensures r.s.heap == s.heap
    ensures r.el == Null ==> r.s == s
    ensures r.el != Null ==> r.s.first == Counted(s.heap[r.el.id], s.first.ctr + 1)
  {
    var ret := s.first;
    match ret.ptr
    case Null => Popped(s, Null)
    case Addr(top) => Popped(s.(first := Cas(s.first, ret, s.heap[top], 1).mem), ret.ptr)
  }

  /** A stack fresh from `as_init` is empty and a pop on it returns NULL. */
  lemma InitEmpty(heap: Links)
    ensures Empty(Init(heap))
    ensures Pop(Init(heap)) == Popped(Init(heap), Null)
  {
  }

  /** Pushing an entry that is not on the stack puts it on top of the list. */
  lemma PushStep(s: Stack, nodes: seq<NodeId>, e: NodeId)
    requires Inv(s, nodes) && e in s.heap && e !in nodes
    ensures s.first.ptr != Addr(e)
    ensures Inv(Push(s, e), [e] + nodes)
  {
    ChainCons(s.heap, e, nodes);
  }

  /** The top of the stack is in memory, so a pop can read its link. */
  lemma TopInHeap(s: Stack, nodes: seq<NodeId>)
    requires Inv(s, nodes)
    ensures s.first.ptr.Addr? ==> s.first.ptr.id in s.heap
  {
    if nodes != [] {
      assert nodes[0] in s.heap;
    }
  }

  /** On an empty stack `as_pop` returns NULL and changes nothing. */
  lemma PopEmpty(s: Stack, nodes: seq<NodeId>)
    requires Inv(s, nodes) && nodes == []
    ensures Pop(s) == Popped(s, Null)
  {
  }

  /**
    A pop from a non-empty stack returns the top entry and leaves the rest
    of the list, in order.
  */
  lemma PopStep(s: Stack, nodes: seq<NodeId>)
    requires Inv(s, nodes) && nodes != []
    ensures s.first.ptr.Addr? && s.first.ptr.id in s.heap
    ensures Pop(s).el == Addr(nodes[0])
    ensures Inv(Pop(s).s, nodes[1..])
    ensures Pop(s).s.first.ctr == s.first.ctr + 1
  {
    TopInHeap(s, nodes);
    ChainRest(s.heap, nodes);
  }

  /**
    A push followed by a pop returns the pushed entry and restores the
    previous top pointer; the counter has moved on by two.
  */
  lemma PushThenPop(s: Stack, e: NodeId)
    requires e in s.heap && s.first.ptr != Addr(e)
    ensures Pop(Push(s, e)).el == Addr(e)
    ensures Pop(Push(s, e)).s.first == Counted(s.first.ptr, s.first.ctr + 2)
  {
  }

  /** `es` reversed. */
  function Reverse(es: seq<NodeId>): (r: seq<NodeId>)
    ensures |r| == |es|
    decreases |es|
  {
    if |es| == 0 then [] else Reverse(es[1..]) + [es[0]]
  }

  /** Reversing puts the element at position `i` at position `|es| - 1 - i`. */
  lemma {:induction false} ReverseIndex(es: seq<NodeId>, i: int)
    requires 0 <= i < |es|
    ensures Reverse(es)[|es| - 1 - i] == es[i]
    decreases |es|
  {
    if i > 0 {
      ReverseIndex(es[1..], i - 1);
      assert Reverse(es)[|es| - 1 - i] == Reverse(es[1..])[|es| - 1 - i];
    }
  }

  /** The entries may be pushed one by one onto a stack described by `nodes`. */
  ghost predicate Pushable(s: Stack, nodes: seq<NodeId>, es: seq<NodeId>) {
    && Distinct(es)
    && Disjoint(nodes, es)
    && (forall i | 0 <= i < |es| :: es[i] in s.heap)
  }

  /** `as_push` of each entry of `es` in turn. */
  function PushAll(s: Stack, es: seq<NodeId>, nodes: seq<NodeId>): (r: Stack)
    requires Inv(s, nodes) && Pushable(s, nodes, es)
    ensures Inv(r, Reverse(es) + nodes)
    ensures r.first.ctr == s.first.ctr + |es|
    ensures r.heap.Keys == s.heap.Keys
    decreases |es|
  {
    if |es| == 0 then
      assert Reverse(es) + nodes == nodes;
      s
    else
      PushFirst(s, nodes, es);
      PushAll(Push(s, es[0]), es[1..], [es[0]] + nodes)
  }

  /** Pushing the first entry leaves the rest pushable onto the larger stack. */
  lemma PushFirst(s: Stack, nodes: seq<NodeId>, es: seq<NodeId>)
    requires Inv(s, nodes) && Pushable(s, nodes, es) && |es| > 0
    ensures es[0] in s.heap && s.first.ptr != Addr(es[0])
    ensures Inv(Push(s, es[0]), [es[0]] + nodes)
    ensures Pushable(Push(s, es[0]), [es[0]] + nodes, es[1..])
    ensures Reverse(es[1..]) + ([es[0]] + nodes) == Reverse(es) + nodes
  {
    var e := es[0];
    PeelFresh(nodes, es);
    PushStep(s, nodes, e);
    var s1 := Push(s, e);
    forall i | 0 <= i < |es[1..]|
      ensures es[1..][i] in s1.heap
    {
      assert es[1..][i] == es[i + 1];
    }
    assert Reverse(es[1..]) + ([e] + nodes) == Reverse(es) + nodes;
  }

  /** `as_pop` called `n` times, collecting the returned entries. */
  function PopN(s: Stack, n: nat, nodes: seq<NodeId>): (r: (Stack, seq<NodeId>))
    requires Inv(s, nodes) && n <= |nodes|
    ensures r.1 == nodes[..n]
    ensures Inv(r.0, nodes[n..])
    ensures r.0.first.ctr == s.first.ctr + n
    decreases n
  {
    if n == 0 then (s, [])
    else
      PopStep(s, nodes);
      var p := Pop(s);
      var rest := PopN(p.s, n - 1, nodes[1..]);
      assert nodes[1..][n - 1..] == nodes[n..];
      assert [nodes[0]] + nodes[1..][..n - 1] == nodes[..n];
      (rest.0, [p.el.id] + rest.1)
  }

  /**
    LIFO order: after pushing `es` one by one, as many pops return them in
    reverse push order, and the stack below is as it was.
  */
  lemma Lifo(s: Stack, nodes: seq<NodeId>, es: seq<NodeId>)
    requires Inv(s, nodes) && Pushable(s, nodes, es)
    ensures var r := PopN(PushAll(s, es, nodes), |es|, Reverse(es) + nodes);
            && (forall i | 0 <= i < |es| :: r.1[i] == es[|es| - 1 - i])
            && Inv(r.0, nodes) && r.0.first.ptr == s.first.ptr
            && r.0.first.ctr == s.first.ctr + 2 * |es|
  {
    var all := Reverse(es) + nodes;
    var r := PopN(PushAll(s, es, nodes), |es|, all);
    assert all[..|es|] == Reverse(es);
    assert all[|es|..] == nodes;
    forall i | 0 <= i < |es|
      ensures r.1[i] == es[|es| - 1 - i]
    {
      ReverseIndex(es, |es| - 1 - i);
    }
  }
}
