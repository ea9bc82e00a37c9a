/**
  Counted pointers and the double-width compare-and-swap over them.

  A counted pointer pairs a pointer with a counter. The compare-and-swap
  replaces the pair only when BOTH fields match the caller's snapshot, and a
  successful swap always advances the counter by a positive increment, so a
  location that went A -> B -> A in its pointer field never compares equal to
  the stale snapshot of A again (the ABA hazard).

  Addresses are abstract node identities; the instruction sequence and the
  alignment checks are not modelled, only the atomic contract.
*/
module CountedPtr {

  /** Identity of an element; addresses play no role beyond identity. */
  type NodeId = nat

  /** A raw pointer: NULL or the address of an element. */
  datatype Ptr = Null | Addr(id: NodeId)

  /** `struct counted_ptr`: a pointer and its ABA counter (unbounded here). */
  datatype Counted = Counted(ptr: Ptr, ctr: int)

  /** `counted_ptr_eq`: two counted pointers agree in pointer AND counter. */
  predicate Eq(a: Counted, b: Counted)
    ensures Eq(a, b) <==> a == b
  {
    a.ptr == b.ptr && a.ctr == b.ctr
  }

  /** Outcome of one compare-and-swap: success flag and the location's new value. */
  datatype CasResult = CasResult(ok: bool, mem: Counted)

  /**
    `counted_compare_and_swap` as one atomic transition: `mem` is the value
    held by the location before the step, `r.mem` the value after it.
  */
  function Cas(mem: Counted, expected: Counted, newPtr: Ptr, inc: int): (r: CasResult)
    requires inc > 0
    ensures r.ok <==> mem == expected
    ensures r.ok ==> r.mem == Counted(newPtr, mem.ctr + inc)
    ensures r.ok ==> r.mem.ctr > mem.ctr
    ensures !r.ok ==> r.mem == mem
  {
    if Eq(mem, expected) then CasResult(true, Counted(newPtr, expected.ctr + inc))
    else CasResult(false, mem)
  }

  /** `counted_ptr_eq` is an equivalence relation. */
  lemma EqIsEquivalence(a: Counted, b: Counted, c: Counted)
    ensures Eq(a, a)
    ensures Eq(a, b) ==> Eq(b, a)
    ensures Eq(a, b) && Eq(b, c) ==> Eq(a, c)
  {
  }

  /** One attempted compare-and-swap by some thread. */
  datatype Attempt = Attempt(expected: Counted, newPtr: Ptr, inc: int)

  predicate PositiveIncrements(attempts: seq<Attempt>) {
    forall i | 0 <= i < |attempts| :: attempts[i].inc > 0
  }

  /**
    The value of a location after a series of compare-and-swap attempts,
    successful or not, by any threads in any order. The counter never goes
    back, and it stays put only if the location was never changed.
  */
  function Replay(mem: Counted, attempts: seq<Attempt>): (r: Counted)
    requires PositiveIncrements(attempts)
    ensures r.ctr >= mem.ctr
    ensures r.ctr == mem.ctr ==> r == mem
    decreases |attempts|
  {
    if |attempts| == 0 then mem
    else
      var a := attempts[0];
      Replay(Cas(mem, a.expected, a.newPtr, a.inc).mem, attempts[1..])
  }

  /**
    The ABA guard: once some compare-and-swap has succeeded on a location,
    no later compare-and-swap that uses the snapshot taken before it can
    succeed, whatever pointer values the location went through in between.
  */
  lemma {:induction false} StaleSnapshotFails(mem: Counted, attempts: seq<Attempt>, newPtr: Ptr, inc: int)
    requires PositiveIncrements(attempts) && inc > 0
    requires |attempts| > 0
    requires Cas(mem, attempts[0].expected, attempts[0].newPtr, attempts[0].inc).ok
    ensures !Cas(Replay(mem, attempts), mem, newPtr, inc).ok
  {
    var a := attempts[0];
    var m1 := Cas(mem, a.expected, a.newPtr, a.inc).mem;
    assert Replay(mem, attempts) == Replay(m1, attempts[1..]);
    assert Replay(m1, attempts[1..]).ctr >= m1.ctr > mem.ctr;
  }
}
