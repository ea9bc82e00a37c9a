/**
  Null-terminated singly linked chains over an abstract heap.

  `links` maps each element to the pointer stored in its `next` field. A
  sequence `nodes` is a chain when its elements are pairwise distinct and
  each one's `next` names the element after it, the last one's being NULL:
  the list is acyclic and ends. Both the queue (from its head) and the stack
  (from its first entry) are described by such a chain.
*/
module Chains {
  import opened CountedPtr

  /** The pointer to the start of `nodes` (NULL when empty). */
  function First(nodes: seq<NodeId>): Ptr {
    if |nodes| == 0 then Null else Addr(nodes[0])
  }

  /** The last element of a non-empty sequence. */
  function Last(nodes: seq<NodeId>): NodeId
    requires |nodes| > 0
  {
    nodes[|nodes| - 1]
  }

  /** The pointer that must follow position `i`. */
  function Next(nodes: seq<NodeId>, i: int): Ptr
    requires 0 <= i < |nodes|
  {
    if i + 1 < |nodes| then Addr(nodes[i + 1]) else Null
  }

  ghost predicate Distinct(s: seq<NodeId>) {
    forall i, j | 0 <= i < j < |s| :: s[i] != s[j]
  }

  ghost predicate Disjoint(a: seq<NodeId>, b: seq<NodeId>) {
    forall i, j | 0 <= i < |a| && 0 <= j < |b| :: a[i] != b[j]
  }

  /** `nodes` is an acyclic, NULL-terminated list in `links`. */
  ghost predicate IsChain(links: map<NodeId, Ptr>, nodes: seq<NodeId>) {
    && Distinct(nodes)
    && (forall i | 0 <= i < |nodes| :: nodes[i] in links)
    && (forall i {:trigger links[nodes[i]]} | 0 <= i < |nodes| :: links[nodes[i]] == Next(nodes, i))
  }

  /**
    A chain is determined by where it starts: following `next` pointers from
    a given pointer can describe at most one chain.
  */
  lemma {:induction false} ChainUnique(links: map<NodeId, Ptr>, a: seq<NodeId>, b: seq<NodeId>)
    requires IsChain(links, a) && IsChain(links, b)
    requires First(a) == First(b)
    ensures a == b
    decreases |a|
  {
    if |a| > 0 {
      assert |b| > 0 && a[0] == b[0];
      assert First(a[1..]) == links[a[0]] == First(b[1..]);
      ChainRest(links, a);
      ChainRest(links, b);
      ChainUnique(links, a[1..], b[1..]);
      assert a == [a[0]] + a[1..];
      assert b == [b[0]] + b[1..];
    }
  }

  /** Dropping the first element of a chain leaves a chain. */
  lemma ChainRest(links: map<NodeId, Ptr>, nodes: seq<NodeId>)
    requires IsChain(links, nodes) && |nodes| > 0
    ensures IsChain(links, nodes[1..])
    ensures links[nodes[0]] == First(nodes[1..])
  {
    var rest := nodes[1..];
    forall i | 0 <= i < |rest|
      ensures rest[i] in links && links[rest[i]] == Next(rest, i)
    {
      assert rest[i] == nodes[i + 1];
      assert Next(rest, i) == Next(nodes, i + 1);
    }
  }

  /** Rewriting the link of an element outside a chain keeps the chain. */
  lemma ChainFrame(links: map<NodeId, Ptr>, nodes: seq<NodeId>, n: NodeId, p: Ptr)
    requires IsChain(links, nodes)
    requires n !in nodes
    ensures IsChain(links[n := p], nodes)
  {
  }

  /** Linking a new element in front of a chain (a stack push). */
  lemma ChainCons(links: map<NodeId, Ptr>, e: NodeId, nodes: seq<NodeId>)
    requires IsChain(links, nodes)
    requires e !in nodes
    ensures IsChain(links[e := First(nodes)], [e] + nodes)
  {
    var s := [e] + nodes;
    var l := links[e := First(nodes)];
    forall i | 0 <= i < |s|
      ensures s[i] in l && l[s[i]] == Next(s, i)
    {
      if i > 0 {
        assert s[i] == nodes[i - 1];
        assert Next(s, i) == Next(nodes, i - 1);
      }
    }
  }

  /**
    Pointing the last element of one chain at the first element of a
    disjoint chain yields the concatenated chain (a queue append).
  */
  lemma ChainAppend(links: map<NodeId, Ptr>, a: seq<NodeId>, b: seq<NodeId>)
    requires IsChain(links, a) && IsChain(links, b)
    requires |a| > 0 && |b| > 0
    requires Disjoint(a, b)
    ensures IsChain(links[Last(a) := First(b)], a + b)
  {
    var s := a + b;
    var l := links[Last(a) := First(b)];
    forall i | 0 <= i < |s|
      ensures s[i] in l && l[s[i]] == Next(s, i)
    {
      if i < |a| - 1 {
        assert s[i] == a[i] && s[i + 1] == a[i + 1];
        assert a[i] != Last(a);
      } else if i == |a| - 1 {
        assert s[i] == Last(a) && s[i + 1] == b[0];
      } else {
        assert s[i] == b[i - |a|];
        assert b[i - |a|] != Last(a);
        assert Next(s, i) == Next(b, i - |a|);
      }
    }
    forall i, j | 0 <= i < j < |s|
      ensures s[i] != s[j]
    {
      if j < |a| {
      } else if i >= |a| {
        assert s[i] == b[i - |a|] && s[j] == b[j - |a|];
      } else {
        assert s[j] == b[j - |a|];
      }
    }
  }

  /**
    Taking the first element off a run of distinct elements that avoid
    `nodes`: the element avoids `nodes`, and the rest of the run avoids
    `nodes` with that element added at either end.
  */
  lemma PeelFresh(nodes: seq<NodeId>, es: seq<NodeId>)
    requires Distinct(es) && Disjoint(nodes, es) && |es| > 0
    ensures es[0] !in nodes
    ensures Distinct(es[1..])
    ensures Disjoint(nodes + [es[0]], es[1..])
    ensures Disjoint([es[0]] + nodes, es[1..])
  {
    var e := es[0];
    forall i | 0 <= i < |nodes|
      ensures nodes[i] != e
    {
    }
    forall i, j | 0 <= i < |nodes + [e]| && 0 <= j < |es[1..]|
      ensures (nodes + [e])[i] != es[1..][j]
    {
      assert es[1..][j] == es[j + 1];
      if i == |nodes| {
        assert es[0] != es[j + 1];
      } else {
        assert nodes[i] != es[j + 1];
      }
    }
    forall i, j | 0 <= i < |[e] + nodes| && 0 <= j < |es[1..]|
      ensures ([e] + nodes)[i] != es[1..][j]
    {
      assert es[1..][j] == es[j + 1];
      if i == 0 {
        assert es[0] != es[j + 1];
      } else {
        assert nodes[i - 1] != es[j + 1];
      }
    }
  }

  /** Two disjoint runs without repetitions make one. */
  lemma DistinctAppend(a: seq<NodeId>, b: seq<NodeId>)
    requires Distinct(a) && Distinct(b) && Disjoint(b, a)
    ensures Distinct(a + b)
  {
    var s := a + b;
    forall i, j | 0 <= i < j < |s|
      ensures s[i] != s[j]
    {
      if j >= |a| && i < |a| {
        assert s[j] == b[j - |a|];
      } else if i >= |a| {
        assert s[i] == b[i - |a|] && s[j] == b[j - |a|];
      }
    }
  }
}
