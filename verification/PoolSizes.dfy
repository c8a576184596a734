/** The pool's size arithmetic, on an LP64 machine with pages of 4096 bytes and without the locking
    fields. Sums are size_t sums and wrap. */
module PoolSizes {
  import opened Basics

  const WORD: nat := 8
  const MIN_ALLOC: nat := 16
  const PAGE: nat := 4096
  const SLOTS: nat := 20
  const NODE: nat := 48
  const HEADER: nat := 200
  const CLEANUP: nat := 24

  /** fpx_align_default */
  function Align(size: nat): nat {
    var up := (size + (WORD - 1)) % SIZE_MOD;
    up - up % WORD
  }

  /** fpx_align_allocation: 0 stands for failure. */
  function AlignAllocation(size: nat): nat {
    var a := Align(size);
    if a < size then 0 else if a < MIN_ALLOC then MIN_ALLOC else a
  }

  /** fpx_get_npages */
  function Pages(size: nat): (n: nat)
    ensures n > 0
  {
    var total := (size + NODE) % SIZE_MOD;
    if total < PAGE then 1 else total / PAGE + 1
  }

  /** The sizes for which adding the node header does not wrap, or which fail at once. */
  predicate Manageable(size: nat) {
    AlignAllocation(size) + NODE < SIZE_MOD
  }

  /** The aligned size is the least multiple of the word that is large enough, and never below the
      minimum; only the last seven sizes of size_t fail. */
  lemma AlignedExactly(size: nat)
    requires size < SIZE_MOD
    ensures AlignAllocation(size) == 0 <==> size + WORD > SIZE_MOD
    ensures size + WORD <= SIZE_MOD ==>
              var a := AlignAllocation(size);
              && a % WORD == 0 && a >= size && a >= MIN_ALLOC
              && forall b: nat | b % WORD == 0 && b >= size && b >= MIN_ALLOC :: a <= b
  {
  }

  /** A fresh node of Pages(a) pages has room for the request with at most one page to spare exactly
      when adding the node header does not wrap. */
  lemma FreshNodeFits(a: nat)
    requires 0 < a < SIZE_MOD
    ensures a + NODE < SIZE_MOD <==> a <= Pages(a) * PAGE - NODE
    ensures a + NODE < SIZE_MOD ==> Pages(a) * PAGE - NODE - a <= PAGE
  {
  }

  /** The sizes that are not manageable are 48 in a row just below the ones that fail. */
  lemma UnmanageableExactly(size: nat)
    requires size < SIZE_MOD
    ensures !Manageable(size) <==> SIZE_MOD - NODE - WORD < size <= SIZE_MOD - WORD
  {
  }

  /** The bound on the slot index lets one index through that the header's array does not have. */
  predicate Slotless(a: nat) {
    Pages(a) - 1 == SLOTS
  }

  lemma SlotlessExactly(a: nat)
    requires a < SIZE_MOD
    ensures Slotless(a) <==> SLOTS * PAGE <= a + NODE < (SLOTS + 1) * PAGE
    ensures Pages(a) <= SLOTS <==> a + NODE < SLOTS * PAGE || a + NODE >= SIZE_MOD
  {
  }
}
