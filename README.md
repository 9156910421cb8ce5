# tagged_ptr: a pointer with a generation tag

This project models `tagged_ptr<T>` from the lock-free queue repository: a value
that pairs a nullable pointer to a `T` with an unsigned generation tag of type
`std::size_t`. The queue keeps such values in its atomic slots so that a slot
whose pointer has been freed and reused still compares different once its tag
has moved on.

- `size_t.dfy` (module `SizeT`) models `std::size_t` with a fixed width of 64
  bits: words are the naturals below 2^64, `+` wraps modulo 2^64, and `&` is
  defined bit by bit on naturals. `std::numeric_limits<std::size_t>::max()` is
  `MaxWord`, and the lemmas show it is the word with all 64 bits set, so masking
  with it changes nothing.
- `tagged_ptr.dfy` (module `TaggedPointer`) models the class itself as a Dafny
  class `TaggedPtr<T>` with the two mutable fields `ptr` and `tag`. A pointer is
  an `Option<T>`: `None` is `nullptr`, `Some(x)` points at `x`. The setters are
  methods that modify the object; the `const` members (`get_tag`,
  `get_next_tag`, `get_ptr`, `operator*`, `operator->`, `operator bool`) are
  functions, so Dafny itself guarantees that calling them changes neither
  field. `get_next_tag` is computed as the source writes it, `(tag + 1) & max`
  in unsigned arithmetic, and its contract states the result this computes:
  `(tag + 1) mod 2^64`, so the largest tag wraps to 0. The function `Advance`
  iterates it, and the lemmas about it show that a tag comes back to an earlier
  value exactly when the number of updates in between is a multiple of 2^64.

## Model

| member | source | states |
|---|---|---|
| SizeT.Add | tagged_ptr.hpp:29 | unsigned addition gives the sum when it fits in a word and the sum minus 2^64 when it overflows |
| SizeT.BitAnd | tagged_ptr.hpp:29 | bitwise AND of two naturals, one binary digit at a time; the result is no larger than either operand |
| SizeT.BitAndTestsBits | tagged_ptr.hpp:29 | bit i of `a & b` is set exactly when bit i is set in both a and b, with bits read by repeated halving |
| SizeT.BitAndAllOnes | tagged_ptr.hpp:29 | a value below 2^n ANDed with n one-bits is that value |
| SizeT.MaskWithMaxIsIdentity | tagged_ptr.hpp:29 | ANDing any word with `numeric_limits<size_t>::max()` returns the word unchanged |
| TaggedPointer.NextTag | tagged_ptr.hpp:27-30 | `(t + 1) & max` equals `(t + 1) mod 2^64`: one more than t below the maximum, 0 at the maximum |
| TaggedPointer.AdvanceShifts | tagged_ptr.hpp:27-30 | taking the next tag k times moves a tag to `(t + k) mod 2^64` |
| TaggedPointer.TagRecursOnlyAfterFullCycle | tagged_ptr.hpp:27-30 | after k successive next tags a tag is back at its starting value exactly when k is a multiple of 2^64 |
| TaggedPointer.TaggedPtr.constructor | tagged_ptr.hpp:13 | the default constructor gives a null pointer with tag 0 |
| TaggedPointer.TaggedPtr.Make | tagged_ptr.hpp:14 | constructing from a pointer and a tag stores exactly that pointer and tag; the tag defaults to 0 |
| TaggedPointer.TaggedPtr.Set | tagged_ptr.hpp:16-20 | afterwards `GetPtr` returns the new pointer and `GetTag` the new tag |
| TaggedPointer.TaggedPtr.GetTag | tagged_ptr.hpp:22-25 | returns the stored tag without changing the object |
| TaggedPointer.TaggedPtr.GetNextTag | tagged_ptr.hpp:27-30 | returns `(GetTag() + 1) mod 2^64`, which always differs from the current tag, and leaves the object unchanged |
| TaggedPointer.TaggedPtr.SetTag | tagged_ptr.hpp:32-35 | afterwards the tag is the new one and the pointer is what it was |
| TaggedPointer.TaggedPtr.GetPtr | tagged_ptr.hpp:37-40 | returns the stored pointer, possibly null, without changing the object |
| TaggedPointer.TaggedPtr.SetPtr | tagged_ptr.hpp:42-45 | afterwards the pointer is the new one and the tag is what it was |
| TaggedPointer.TaggedPtr.Deref | tagged_ptr.hpp:47-50 | for a non-null pointer, returns the object `GetPtr` points at |
| TaggedPointer.TaggedPtr.Arrow | tagged_ptr.hpp:52-55 | returns the same pointer as `GetPtr` |
| TaggedPointer.TaggedPtr.IsNonNull | tagged_ptr.hpp:57-60 | true exactly when the pointer is non-null; the tag plays no part |

`TaggedPointer.ClientScenario` is a client of the class's members: it
follows the values through the queue node's next-slot initialisation
(lockfree_queue.hpp:16-18, taken sequentially) and through each setter.

## Left out

- The width of `std::size_t` is fixed at 64 bits instead of following the platform.
- Copy semantics: `tagged_ptr<T>` is a C++ value type that is copied into and out of atomic slots; `TaggedPtr<T>` is a Dafny object, so two variables can alias one object. Copying is not modelled.
- The pointee is opaque: a pointer is modelled as `Option<T>` naming the object it points at, so dangling pointers, address reuse and memory safety are outside the model.
- TaggedPointer.TaggedPtr.Deref: requires a non-null pointer, where `operator*` on a null pointer is undefined behaviour in C++.
- Equality of `tagged_ptr` values: the class defines no `operator==`, so no comparison is modelled.
- lockfree_queue.hpp: it holds only a node class whose constructor loads and stores an atomic next slot with relaxed and release ordering; atomicity, memory ordering, compare-and-swap and the queue algorithm the repository does not yet contain are not part of this model.
