/**
  The growth policy of Vec<T> (Vec.h: chk_n_alloc and reallocate), stated on
  the two numbers it depends on: the number of live elements (array_size) and
  the number of allocated slots (max_capacity).
*/
module VecGrowth {

  /** The block size reallocate asks for: twice the live size, or one slot
      when the vector is empty. */
  function NewSize(size: nat): (r: nat)
    ensures r > size
  {
    if size != 0 then 2 * size else 1
  }

  /** The slot count after chk_n_alloc: reallocation happens only when the
      block is full, so headroom is left alone. */
  function CheckedCapacity(cap: nat, size: nat): (r: nat)
    requires size <= cap
    ensures r > size && r >= cap
    ensures size < cap ==> r == cap
  {
    if cap == size then NewSize(size) else cap
  }

  /** The slot count after k appends (push_back, emplace_back, the growing
      arm of resize) starting from a block of `cap` slots holding `size`
      elements. */
  function CapacityAfterAppends(cap: nat, size: nat, k: nat): (r: nat)
    requires size <= cap
    ensures r >= cap && r >= size + k
    decreases k
  {
    if k == 0 then cap
    else CheckedCapacity(CapacityAfterAppends(cap, size, k - 1), size + k - 1)
  }

  /** The number of elements the reallocations of those k appends move into
      a new block: each reallocation moves every live element once. */
  function RelocationsAfterAppends(cap: nat, size: nat, k: nat): nat
    requires size <= cap
    decreases k
  {
    if k == 0 then 0
    else
      var before := CapacityAfterAppends(cap, size, k - 1);
      RelocationsAfterAppends(cap, size, k - 1) + (if before == size + k - 1 then size + k - 1 else 0)
  }

  predicate IsPowerOfTwo(n: nat)
    decreases n
  {
    n == 1 || (n >= 2 && n % 2 == 0 && IsPowerOfTwo(n / 2))
  }

  /** From the empty state, k >= 1 appends leave the unique power of two in
      [k, 2k) as max_capacity, so successive appends give 1, 2, 4, 8, ...; and
      the elements moved by all reallocations together number one less than
      that capacity, fewer than 2k: appending is amortised constant time. */
  lemma {:induction false} AppendsFromEmpty(k: nat)
    ensures k == 0 ==> CapacityAfterAppends(0, 0, k) == 0
    ensures k > 0 ==> IsPowerOfTwo(CapacityAfterAppends(0, 0, k))
    ensures k > 0 ==> k <= CapacityAfterAppends(0, 0, k) < 2 * k
    ensures k > 0 ==> RelocationsAfterAppends(0, 0, k) == CapacityAfterAppends(0, 0, k) - 1
  {
    if k > 1 {
      AppendsFromEmpty(k - 1);
      var c := CapacityAfterAppends(0, 0, k - 1);
      if c == k - 1 {
        assert CapacityAfterAppends(0, 0, k) == 2 * c;
        assert (2 * c) / 2 == c;
      }
    }
  }

  /** Appends that fit in the headroom leave the block as it is. */
  lemma {:induction false} AppendsWithinHeadroom(cap: nat, size: nat, k: nat)
    requires size + k <= cap
    ensures CapacityAfterAppends(cap, size, k) == cap
    decreases k
  {
    if k > 0 {
      AppendsWithinHeadroom(cap, size, k - 1);
    }
  }

  /** The capacities after successive appends never decrease: no append
      shrinks the block. */
  lemma {:induction false} AppendsNeverShrink(cap: nat, size: nat, j: nat, k: nat)
    requires size <= cap && j <= k
    ensures CapacityAfterAppends(cap, size, j) <= CapacityAfterAppends(cap, size, k)
    decreases k - j
  {
    if j < k {
      AppendsNeverShrink(cap, size, j, k - 1);
    }
  }
}
