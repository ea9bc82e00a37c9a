/**
  The release flag kept in bit 63 of an element's `next.ctr` word.

  The queue reuses the top bit of the link counter as a one-bit "pending
  release" flag, flipped with an atomic exclusive-or. The low 63 bits keep
  counting compare-and-swaps on the link. Words are modelled as unbounded
  non-negative integers read as bit strings: `Bit63` is bit 63, `Low` the
  bits below it, and `Toggle` is exclusive-or with 1 << 63.
*/
module ReleaseBit {

  /** 1 << 63. */
  const FLAG: int := 0x8000_0000_0000_0000

  /** Bit 63 of the word `w`. */
  predicate Bit63(w: int) {
    (w / FLAG) % 2 == 1
  }

  /** Bits 0..62 of the word `w`. */
  function Low(w: int): int {
    w % FLAG
  }

  /** `w ^ (1 << 63)`: flips bit 63 and nothing else. */
  function Toggle(w: int): (r: int)
    ensures Bit63(r) == !Bit63(w)
    ensures Low(r) == Low(w)
    ensures r / FLAG / 2 == w / FLAG / 2
  {
    if Bit63(w) then w - FLAG else w + FLAG
  }

  /** Flipping the bit twice restores the word. */
  lemma ToggleInvolutive(w: int)
    ensures Toggle(Toggle(w)) == w
  {
  }

  /**
    A word below 1 << 63, such as a queue's enqueue count, has bit 63 clear
    and is its own low part.
  */
  lemma SmallWord(w: int)
    requires 0 <= w < FLAG
    ensures !Bit63(w) && Low(w) == w
  {
  }

  /**
    Adding one to a link counter leaves the flag alone as long as the low
    bits do not carry into bit 63.
  */
  lemma IncrementKeepsFlag(w: int)
    requires Low(w) + 1 < FLAG
    ensures Bit63(w + 1) == Bit63(w)
    ensures Low(w + 1) == Low(w) + 1
  {
    assert (w + 1) / FLAG == w / FLAG;
  }
}
