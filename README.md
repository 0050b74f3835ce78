# Vec<T>: a growable contiguous array, modelled in Dafny

`Vec<T>` (Vec.h) is a hand-written dynamic array. It owns one block of
slots and keeps three pointers into it: `element` (the start of the block),
`first_free` (one past the last live element) and `cap` (one past the last
allocated slot). Size and capacity are differences of those pointers. Appends
grow the block by doubling the size, with one slot as the first block.
`reserve` grows it to an exact slot count, and `resize` grows or shrinks the
live prefix. Copies are deep and have no headroom. Moves hand the block over
and leave the source empty. The six relational operators compare the live
elements with `std::equal` and `std::lexicographical_compare`.

The model has four modules:

- `VecGrowth` (VecGrowth.dfy) states the growth policy on plain numbers: the
  size `reallocate` asks for, the capacity after `chk_n_alloc`, and the
  capacity after k appends. It proves that, from empty, the capacity after
  k >= 1 appends is the power of two in [k, 2k), so it runs 1, 2, 4, 8, ….
  It also proves that the reallocations of those appends move cap - 1 < 2k
  elements in all.
- `SeqCompare` (SeqCompare.dfy) defines `std::equal` and
  `std::lexicographical_compare` over `seq<int>`, following [alg.equal] and
  [alg.lex.comparison] of ISO/IEC 14882. Lemmas tie them to reference
  meanings: a prefix match, and "first difference decides, a strict prefix is
  less". The lexicographic order is proved irreflexive, transitive and
  trichotomous.
- `Vector` (Vec.dfy) holds `class Vec<T(0)>`. Its block is an `array<T>`
  whose length is `max_capacity()`, and a `size` field plays the part of
  `first_free`. `Contents()` is the live prefix, the range `begin()`..`end()`.
  The class invariant `Valid()` is `size <= max_capacity`. The slots from
  `size` on are ordinary array cells that mean nothing. Growth, `reserve`
  and both `resize` forms are methods with the source's loops. Each states
  the new contents and the exact new capacity in terms of the old state. The
  friend operators are functions on `Vec<int>`, each stated through the
  reference meanings of `SeqCompare`.
- `Scenarios` (Scenarios.dfy) is client code that uses only those contracts.
  It appends from empty and sees capacities 1, 2, 4, 4. It compares
  [1,2,3,4] with [1,2,3,5], and [1,2,3] with [1,2,3,4]. It copies, assigns a
  Vec to itself, moves, reserves and resizes. It also appends an element of
  a full Vec to that Vec, in the source's order and in the corrected one.

The null block of a default-constructed or moved-from `Vec` is a zero-length
array. `resize(n)` value-initialises new elements with `T()`. Dafny has no
generic default constructor, so `ResizeDefault` takes that value as a
parameter, `zero`.

## Model

| member | source | states |
|---|---|---|
| `VecGrowth.NewSize` | Vec.h:173 | the block size reallocate asks for, 2·size or 1 when empty, is always larger than the size |
| `VecGrowth.CheckedCapacity` | Vec.h:153 | after chk_n_alloc there is room for one more element, capacity never drops, and a block with headroom keeps its size |
| `VecGrowth.CapacityAfterAppends` | Vec.h:92-96 | after k appends the block holds at least size + k slots and never fewer than before |
| `VecGrowth.AppendsFromEmpty` | Vec.h:171-186 | from empty, k >= 1 appends leave a power-of-two capacity c with k <= c < 2k (so 1, 2, 4, 8, …); the elements moved by all reallocations number c - 1; no appends leave capacity 0 |
| `VecGrowth.AppendsWithinHeadroom` | Vec.h:153 | appends that fit in the headroom leave the slot count unchanged |
| `VecGrowth.AppendsNeverShrink` | Vec.h:153 | capacity is monotone over a run of appends |
| `SeqCompare.EqualRange` | Vec.h:15 | std::equal over lhs's range and the start of rhs's; its meaning is proved by EqualRangeIsPrefix |
| `SeqCompare.LexCompare` | Vec.h:22 | std::lexicographical_compare as the standard defines it; its meaning is proved by LexCompareMeansBefore |
| `SeqCompare.EqualRangeIsPrefix` | Vec.h:14-15 | std::equal over lhs's range holds iff lhs equals rhs's prefix of that length |
| `SeqCompare.LexCompareMeansBefore` | Vec.h:20-23 | std::lexicographical_compare holds iff the first differing element of lhs is smaller, or lhs is a strict prefix of rhs |
| `SeqCompare.LexCompareIrreflexive` | Vec.h:20-23 | no Vec compares less than one with the same elements |
| `SeqCompare.LexCompareTrichotomy` | Vec.h:20-27 | of two element sequences exactly one is less, they are equal, or the other is less |
| `SeqCompare.LexCompareTransitive` | Vec.h:20-23 | a < b and b < c give a < c |
| `Vector.Vec.Valid` | Vec.h:190-192 | the class invariant element <= first_free <= cap: the size never exceeds the block length |
| `Vector.Vec.Contents` | Vec.h:88-89 | begin()..end() is the live prefix, of length array_size() |
| `Vector.Vec.ArraySize` | Vec.h:87 | the number of live elements, never above max_capacity() |
| `Vector.Vec.MaxCapacity` | Vec.h:86 | the number of allocated slots, at least the size |
| `Vector.Vec.Capacity` | Vec.h:98-99 | size plus headroom is max_capacity(); no headroom exactly when the block is full |
| `Vector.Vec.Get` | Vec.h:82 | the element at index i of the live contents, for i below the size |
| `Vector.Vec.Set` | Vec.h:81 | writing through operator[] replaces exactly element i |
| `Vector.Vec.constructor` | Vec.h:33 | default construction gives size 0 and max_capacity 0 |
| `Vector.Vec.FromList` | Vec.h:49-54 | the list's elements in order, with max_capacity equal to the size |
| `Vector.Vec.Copy` | Vec.h:35-40 | the source's elements in order in a fresh block whose max_capacity is the source's size |
| `Vector.Vec.Move` | Vec.h:42-47 | the new Vec takes over the source's block and elements; the source is left with size 0, max_capacity 0 and a block of its own, so it can be appended to again |
| `Vector.Vec.CopyAssign` | Vec.h:58-65 | the receiver holds rhs's elements in a fresh block with no headroom; self-assignment keeps the contents; a distinct rhs is untouched |
| `Vector.Vec.MoveAssign` | Vec.h:67-78 | with a distinct rhs the receiver takes rhs's block and contents, and rhs is left with size 0, max_capacity 0 and a block of its own, so it stays reusable; self-move changes nothing |
| `Vector.Vec.AllocNCopy` | Vec.h:155-159 | a fresh block of exactly the range's length holding its elements in order |
| `Vector.Vec.Reallocate` | Vec.h:171-186 | a fresh block of exactly 2·size slots (1 when empty) holding the same elements in the same order |
| `Vector.Vec.ChkNAlloc` | Vec.h:153 | contents unchanged, room for one more element; the block is replaced only when it was full |
| `Vector.Vec.Reserve` | Vec.h:101-118 | for n > max_capacity the block becomes exactly n slots, otherwise it is untouched; size and elements unchanged either way |
| `Vector.Vec.PushBack` | Vec.h:92-96 | x is appended after the unchanged old elements; capacity follows the doubling rule; without reallocation the block stays the same |
| `Vector.Vec.EmplaceBack` | Vec.h:145-149 | as push_back, for the element built from the arguments |
| `Vector.Vec.Resize` | Vec.h:120-129 | size becomes n; shrinking keeps the first n elements and the block; growing appends n - size copies of init with the capacity n - size appends give; when n fits in the block, the block is kept |
| `Vector.Vec.ResizeDefault` | Vec.h:131-143 | as resize(n, init), with the caller-supplied `zero` as the fill |
| `Vector.Vec.PushBackOwnElementAsWritten` | Vec.h:92-96 | push_back(v[i]) as written: size grows by one and the old elements stay, but on a full Vec the argument is read from the block reallocate has released |
| `Vector.Vec.PushBackOwnElement` | Vec.h:92-96 | push_back(v[i]) with the argument copied first: element i as it was is appended, read from the live block, with the doubling capacity |
| `Vector.Equal` | Vec.h:12-16 | operator== holds iff the two Vecs hold the same elements in the same order |
| `Vector.NotEqual` | Vec.h:18 | operator!= holds iff the element sequences differ |
| `Vector.Less` | Vec.h:20-23 | operator< is lexicographic: first difference decides, a strict prefix is less |
| `Vector.Greater` | Vec.h:25 | operator> is rhs < lhs |
| `Vector.LessEqual` | Vec.h:26 | operator<= (!(rhs < lhs)) holds iff lhs < rhs or the elements are equal |
| `Vector.GreaterEqual` | Vec.h:27 | operator>= (!(lhs < rhs)) holds iff rhs < lhs or the elements are equal |
| `Scenarios.AppendFromEmpty` | Vec.h:92-96 | four appends from empty give elements 1, 2, 3, 4 and capacities 1, 2, 4, 4 |
| `Scenarios.CompareExamples` | Vec.h:20-27 | [1,2,3,4] < [1,2,3,5], and [1,2,3] < [1,2,3,4], and [1,2,3] <= [1,2,3,4] but not > |
| `Scenarios.CopyAndMove` | Vec.h:35-78 | a copy equals its source and changing it leaves the source alone; self-copy-assignment keeps the elements; a moved-from Vec has size 0 and takes appends again |
| `Scenarios.PushBackOwnElementExample` | Vec.h:92-96 | on the full Vec [1], push_back(v[0]) as written reads a released block; the corrected order gives [1, 1] |
| `Scenarios.ReserveAndResize` | Vec.h:101-143 | reserve(10) then reserve(2) gives capacity 10 and keeps the elements; resize(5, 7) appends 7, 7; resize(1) keeps [1] and capacity 10 |

## Left out

- The allocator's split between raw memory and objects (allocate, construct, destroy, deallocate). Unconstructed slots are ordinary array cells with no meaning.
- `free()` (Vec.h:161-169) and the destructor `~Vec` (Vec.h:56), because destroying elements and returning the block have no observable effect in Dafny's memory model. Where the source calls `free()`, the model drops its reference to the old array.
- Exceptions and allocation failure, because Dafny has none. The strong guarantee of copy assignment shows only in the ordering: the new block is built before the field is replaced.
- `std::move` and `std::forward` when elements are relocated or emplaced, because Dafny values are immutable and copying equals moving.
- `Vector.Vec.EmplaceBack`: does not model the variadic arguments. It takes the already-built element, since variadic constructor forwarding has no Dafny counterpart.
- `Vector.Vec.ResizeDefault`: the caller supplies the value `T()` would produce, as `zero`, because Dafny has no generic value-initialisation; the contract holds for whatever `zero` is passed.
- `Vector.Vec.Set`: models only writes through the reference the non-const `operator[]` returns (Vec.h:81). Reads through it are `Get`.
- Pointers and iterators: `begin()`/`end()` are the sequence `Contents()`. When addresses stay valid, and aliasing between two Vecs, are not expressed. `Valid()` does not rule out two Vecs sharing a block.
- A `resize(n, init)` argument that refers to an element of the same Vec: it has the defect listed under "## Findings" for `push_back`, but only `push_back` is modelled with a by-reference argument.
- The `size_t` width of sizes and capacities: they are unbounded naturals, so an overflowing `2 * size` is not modelled.
- A null block and an allocated block of zero slots are not distinguished. Both are a zero-length array.
- The element type's comparison: the relational operators are modelled for `Vec<int>`, with integer `<` and `==` as the element order.

## Findings

| source | as written | input that shows it | evidently intended | confidence | as-written member | corrected member |
|---|---|---|---|---|---|---|
| Vec.h:92-96 | `push_back(const T& n)` calls `chk_n_alloc()` before copying `n`; when `n` refers to an element of the same full Vec, `reallocate` has already moved that element out and released its block, so `n` refers to a destroyed object | a full Vec holding [1], then `v.push_back(v[0])` | copy the argument before reallocating, so the appended element is the old element i | medium, not executed | `Vector.Vec.PushBackOwnElementAsWritten` | `Vector.Vec.PushBackOwnElement` |
