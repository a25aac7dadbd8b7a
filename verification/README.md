# statvec in Dafny

A model of `statvec<T, N>` from `include/statvec.h`. It is a fixed-capacity vector: N inline slots, a logical length `size_` with `size_ <= N`, and `N >= 1`. No operation grows storage. Every capacity-bounded mutator reports overflow through its return value: a `bool`, or the `end()` cursor.

A container is the immutable value `StatVec(buf, size)`. The capacity N is `|buf|`, and `Valid()` is the class invariant. The whole buffer is kept, not only the live prefix `Live() == buf[..size]`, because several operations expose slots that are not live:

- `resize` grows without writing, so old contents come back into view.
- Copy construction and `reserve` copy raw slots.
- Copy assignment keeps the destination's slots past the source's length.

Each mutator is a pure function that returns a `Mutated(vec, ret)` pair: the container afterwards and what the call returned. A cursor is the index it points at, so `begin()` is 0 and `end()` is `size`. Failure cursors are the `end()` index.

Modules:

- `Shift`: the overlapping element moves. It has `std::move_backward` and `std::move` as in-place array loops, each proved equal to a slice-and-concatenate function. It also has the two shape lemmas that turn those moves into "splice into / cut out of the live prefix".
- `Container`: the datatype, the constructors, the assignments, `swap`, element access and size queries.
- `Mutators`: `resize`/`clear`, `push_back`/`emplace_back`/`pop_back`, `insert`, `emplace` and `erase`.
- `Compare`: the six cross-capacity comparison operators.
- `Reserve`: `reserve<M>` and `statvec_reserve`.
- `Cursors`: iterator and const_iterator arithmetic, ordering and dereference.

Elements are values. A moved-from slot keeps the value it held, which is what happens for trivially copyable element types. `dflt` stands for a value-initialised `T{}`. `T`'s `operator==` is passed to the comparisons as `eq` and `T`'s `operator<` as `less`; neither is assumed to be value identity or a total order except in the lemmas that say so.

Where the code departs from what its sibling operations and tests evidently intend, the model follows the code:

- `reserve<M>` makes all M slots live, not `min(size, M)`.
- `assign(first, last)` does not set the length when the range fits.
- `emplace` does not grow the length.

Each of these is logged under Findings, together with a corrected member. Also, a successful `push_back` followed by `pop_back` restores the length and the live elements, but not the whole buffer: the slot at the old length still holds the pushed value (`Mutators.PushThenPop`).

## Model

| member | source | states |
|---|---|---|
| Shift.Written | include/statvec.h:614 | `std::copy` into disjoint storage: slots [at, at+len) hold the source in order; every other slot is unchanged |
| Shift.MovedBackward | include/statvec.h:578 | after `std::move_backward(first, last, dLast)` the range sits in [dLast-len, dLast); every other slot keeps its value |
| Shift.MovedForward | include/statvec.h:672 | after `std::move(first, last, dFirst)` the range sits in [dFirst, dFirst+len); every other slot keeps its value |
| Shift.MoveBackward | include/statvec.h:577-578 | the in-place loop, run from the high end down, yields exactly the simultaneous backward shift, even when source and destination overlap |
| Shift.MoveForward | include/statvec.h:680-682 | the in-place loop, run from the low end up, yields exactly the simultaneous forward shift, even when source and destination overlap |
| Shift.InsertShape | include/statvec.h:609-615 | opening a gap at p and copying the new elements in gives live prefix `old[..p] + new + old[p..size]`; slots past the new end are untouched |
| Shift.EraseShape | include/statvec.h:680-684 | moving the tail from l down to f gives live prefix `old[..f] + old[l..size]`; slots from the new end on are untouched |
| Container.Filled | include/statvec.h:747-762 | a fresh buffer holds the given elements in its first slots and value-initialised elements after them |
| Container.Default | include/statvec.h:214 | the default constructor has capacity N, nothing live, and every slot value-initialised |
| Container.FromList | include/statvec.h:344-354 | the variadic constructor takes 1..N arguments; they become exactly the live elements and the remaining slots are value-initialised |
| Container.FromArray | include/statvec.h:356-374 | the array constructor takes an array of M <= N elements; it becomes exactly the live elements, size is M, and the remaining slots are value-initialised |
| Container.CopyOf | include/statvec.h:228-229 | copy (and move) construction copies all N slots and the length: same live elements and same reserve contents |
| Container.CopyAssignVersusCopy | include/statvec.h:376-381 | copy assignment equals copy construction iff the destination's slots past the source's length already match the source's |
| Container.CopyAssign | include/statvec.h:376-388 | copy/move assignment makes the live elements equal the source's; the destination's slots past the source's length keep their contents |
| Container.ArrayAssign | include/statvec.h:390-402 | assigning an N-element array makes it the live content and the container full |
| Container.AssignFill | include/statvec.h:404-416 | partial fill: returns true iff count <= N; size is min(count, N); all live slots equal the value; later slots are untouched |
| Container.AssignRangeAsWritten | include/statvec.h:418-433 | overflow: the first N source elements, full, false. Fit: source copied over the first slots, true, size left unchanged |
| Container.AssignRange | include/statvec.h:418-433 | intended range assign: the live elements become the range when it fits (true), or its first N elements (false) |
| Container.AssignRangeAgreesIff | include/statvec.h:418-433 | for every container and range, the as-written and the corrected range assign agree iff the range overflows or its length already equals the live length |
| Container.AssignRangeKeepsStaleSize | include/statvec.h:428-432 | assigning {1,2,3} to an empty 4-slot container reports success but leaves nothing live; the corrected assign makes all three live |
| Container.Swap | include/statvec.h:513-517 | each container gets the other's whole buffer and live elements |
| Container.SwapInvolution | include/statvec.h:513-517 | swapping twice restores both containers |
| Container.Index | include/statvec.h:435-443 | `operator[]` within the live prefix yields the i-th live element |
| Container.At | include/statvec.h:445-461 | `at(i)` fails with out_of_range (carrying i) iff i >= size, and otherwise yields the i-th live element |
| Container.Front | include/statvec.h:463-471 | on a non-empty container `front()` is the first live element |
| Container.Back | include/statvec.h:478-486 | on a non-empty container `back()` is the last live element |
| Container.Store | include/statvec.h:434-481 | writing through the reference from `operator[]`, `at()`, `front()` or `back()` sets that slot; the length and all other slots stay, and a live write replaces exactly that live element |
| Container.StoreThenRead | include/statvec.h:434-451 | after a write, `operator[]` and (for a live index) `at()` read the new value at that index and the old values elsewhere |
| Container.StoreIdempotence | include/statvec.h:434-437 | writing back a slot's own value changes nothing; of two writes to one slot the later wins |
| Container.AccessorWriteExamples | test/accessors.cc:33-108 | `vec[2] = 37` and `vec.at(2) = 37` on {1,2,3}, `front() = 32` and `back() = 32` on {1,2,3,45} read back as written |
| Container.IsEmpty | include/statvec.h:473-476 | `empty()` holds iff nothing is live |
| Container.Size | include/statvec.h:498-501 | `size()` is the number of live elements and never exceeds the capacity |
| Container.Capacity | include/statvec.h:508-511 | `capacity()` is the fixed N: at least one and never below the live count |
| Container.MaxSize | include/statvec.h:503-511 | `max_size()` is the fixed capacity N >= 1 |
| Mutators.Resize | include/statvec.h:546-554 | never writes a slot; returns true iff n <= N; size becomes min(n, N) |
| Mutators.Clear | include/statvec.h:541-544 | nothing is live afterwards and no slot is written |
| Mutators.ResizeRevealsReserve | include/statvec.h:546-554 | growing exposes the old reserve contents: the live elements become `old live + buf[size..n]` |
| Mutators.ShrinkThenGrowRestores | include/statvec.h:546-554 | shrinking and then resizing back to the old length restores the container exactly |
| Mutators.ClearThenResizeRestores | include/statvec.h:541-554 | `clear()` then resizing to the old length restores the container exactly |
| Mutators.PushBack | include/statvec.h:635-651 | full: false, nothing changes. Otherwise: true, the live elements gain the value at the end, every other slot is unchanged |
| Mutators.EmplaceBack | include/statvec.h:653-661 | same all-or-nothing contract as push_back, for the element built from the arguments |
| Mutators.PopBack | include/statvec.h:663-666 | on a non-empty container it returns the last live element, drops it from the live prefix, and writes no slot |
| Mutators.PushThenPop | include/statvec.h:635-666 | push then pop returns the pushed value and restores size and live elements; slot `size` keeps the pushed value |
| Mutators.PopThenPush | include/statvec.h:635-666 | pushing back the popped value restores the container exactly and reports success |
| Mutators.InsertOne | include/statvec.h:571-582 | full: unchanged, returns end(). Otherwise: live becomes `old[..p] + [x] + old[p..]`, size+1, returns p, later slots untouched |
| Mutators.InsertRange | include/statvec.h:599-617 | no fit: unchanged, returns end(). Empty range: unchanged, returns p. Otherwise the range is spliced in at p, size grows by its width, returns p |
| Mutators.InsertLvalueAsWritten | include/statvec.h:556-569 | live result matches the correct insert, but the shift also drags reserve slot `size` to `size+1`; it needs two free slots to stay in bounds |
| Mutators.LvalueInsertOverrunsWithOneFreeSlot | include/statvec.h:561-566 | with exactly one free slot the full-check passes, and after `++size_` the destination end of `move_backward(it, end(), end() + 1)` is N + 1, one past the buffer |
| Mutators.LvalueInsertAgreesWithInsertOne | include/statvec.h:556-582 | where the lvalue insert stays in bounds, it returns the same index, size and live elements as the rvalue insert |
| Mutators.EmplaceAsWritten | include/statvec.h:619-633 | non-full: returns p but size is unchanged, so the live result is the correct one cut to the old length and the old last element falls into reserve; slots past size + 1 are untouched |
| Mutators.EmplaceDropsLastElement | include/statvec.h:619-633 | emplacing 12 at 1 in {0,1,2,3} leaves {0,12,1,2} live; the corrected emplace gives {0,12,1,2,3} |
| Mutators.Emplace | include/statvec.h:619-633 | intended emplace: full gives end() and no change; otherwise returns p, size grows by one, the element is spliced in at p and slots past the new end are untouched |
| Mutators.EraseOne | include/statvec.h:668-675 | the element at p leaves the live sequence, size drops by one, returns p (== end() iff p was last), later slots untouched |
| Mutators.EraseRange | include/statvec.h:677-685 | live becomes `old[..f] + old[l..]`, size drops by exactly l-f, returns f (== end() iff l was the old end), later slots untouched |
| Mutators.InsertThenErase | include/statvec.h:668-675 | erasing the element just inserted restores the live elements |
| Mutators.InsertRangeThenEraseRange | include/statvec.h:677-685 | erasing the span a range insert filled restores the live elements |
| Mutators.EraseOneIsRangeOfOne | include/statvec.h:668-685 | `erase(pos)` equals `erase(pos, pos + 1)` |
| Compare.RangeEqual | include/statvec.h:764-767 | the four-iterator `std::equal` holds iff the lengths match and every pair of elements is equal under `T`'s `operator==` |
| Compare.RangeEqualIsIdentity | include/statvec.h:764-767 | when `T`'s `operator==` is value identity, `std::equal` decides sequence equality |
| Compare.LexLess | include/statvec.h:784-787 | `lexicographical_compare` is false when b is empty, and true when a is a proper prefix of b |
| Compare.LexLessIsLexBelow | include/statvec.h:784-787 | under a strict total order the compare loop holds iff some k has equal prefixes before k and a below b at k (or a ending there), both directions |
| Compare.Eq | include/statvec.h:764-767 | `==` holds iff the live lengths are equal and the live elements are pairwise equal under `T`'s `operator==`, whatever the capacities |
| Compare.Ne | include/statvec.h:769-772 | `!=` holds iff the live lengths differ or some pair of live elements is unequal under `T`'s `operator==` |
| Compare.Lt | include/statvec.h:784-787 | `<` needs a non-empty right operand and holds when the left is a proper live prefix of the right |
| Compare.Gt | include/statvec.h:789-792 | `>` is `<` with the operands swapped |
| Compare.Le | include/statvec.h:774-777 | `<=` is the negation of the swapped `<` |
| Compare.Ge | include/statvec.h:779-782 | `>=` is the negation of `<` |
| Compare.LtIsLexicographic | include/statvec.h:784-792 | under a strict total order `<` and `>` are exactly lexicographic order of the live elements |
| Compare.ComparisonsIgnoreReserve | include/statvec.h:764-792 | containers with the same live elements compare alike against any third, and equal to each other when `T`'s `==` is reflexive, whatever their capacities or reserve contents |
| Compare.Trichotomy | include/statvec.h:764-792 | when `<` is asymmetric and `==` holds exactly for elements neither less than the other, exactly one of `<`, `==`, `>` holds |
| Compare.SeqTrichotomy | include/statvec.h:784-792 | the same trichotomy for the `std::equal` and `std::lexicographical_compare` loops on sequences |
| Compare.EqualityExamples | test/comparison.cc:5-11 | the five `==` assertions of the test, including {1,2,3} equal to a capacity-32 {1,2,3} |
| Compare.InequalityExamples | test/comparison.cc:13-19 | the five `!=` assertions of the test |
| Compare.LeExamples | test/comparison.cc:21-27 | the five `<=` assertions of the test |
| Compare.GeExamples | test/comparison.cc:29-35 | the five `>=` assertions of the test |
| Compare.LtExamples | test/comparison.cc:37-43 | the five `<` assertions of the test |
| Compare.GtExamples | test/comparison.cc:45-51 | the five `>` assertions of the test |
| Reserve.ReserveAsWritten | include/statvec.h:519-539 | capacity M; the first min(N,M) raw slots are copied; slots from N on are value-initialised; size is M |
| Reserve.StatvecReserve | include/statvec.h:794-797 | the free function has capacity M, full length, the source's first min(N,M) slots and value-initialised slots after them |
| Reserve.Reserve | include/statvec.h:519-539 | intended conversion: same slots, but the live elements are the source's first min(size, M) live elements |
| Reserve.ReserveAsWrittenGrowsLength | include/statvec.h:519-539 | as written, reserving a non-full container to M > size changes the length; the intended conversion keeps the live elements |
| Reserve.ReserveTestExample | test/reserve.cc:7-15 | {1,2,3,4} reserved to 32 keeps 1 and 4 in slots 0 and 3 but has 32 live elements, the fifth a value-initialised 0 |
| Reserve.ReserveRoundTrip | include/statvec.h:519-539 | the intended conversion to M >= N and back to N restores the container exactly |
| Reserve.ReserveAsWrittenRoundTrip | include/statvec.h:519-539 | as written, the round trip restores the buffer but leaves the container full |
| Cursors.Begin | include/statvec.h:687-710 | `begin()`/`cbegin()` point at index 0 with the requested access |
| Cursors.End | include/statvec.h:692-715 | `end()`/`cend()` point one past the last live element |
| Cursors.ToReadOnly | include/statvec.h:939-947 | converting to const_iterator keeps the position and makes it read-only |
| Cursors.Advance | include/statvec.h:917-925 | `it + n` (and `n + it`, `+=`) is n slots past it, same kind |
| Cursors.Retreat | include/statvec.h:927-930 | `it - n` (and `-=`) is n slots before it, same kind |
| Cursors.Inc | include/statvec.h:841-845 | `++it` is one slot further |
| Cursors.Dec | include/statvec.h:854-858 | `--it` is one slot back |
| Cursors.PostInc | include/statvec.h:847-852 | `it++` yields the old cursor and leaves one that steps back to it |
| Cursors.PostDec | include/statvec.h:860-865 | `it--` yields the old cursor and leaves one that steps forward to it |
| Cursors.Distance | include/statvec.h:932-935 | `lhs - rhs` is the offset that carries rhs to lhs |
| Cursors.Equal | include/statvec.h:887-895 | `==` holds iff the two cursors are the same |
| Cursors.LessEq | include/statvec.h:897-900 | `<=` holds iff the distance from lhs to rhs is non-negative |
| Cursors.GreaterEq | include/statvec.h:902-905 | `>=` holds iff the distance from rhs to lhs is non-negative |
| Cursors.Less | include/statvec.h:907-910 | `<`, written as `!(>=)`, holds iff `<=` and not `==`, i.e. rhs is strictly ahead |
| Cursors.Greater | include/statvec.h:912-915 | `>`, written as `!(<=)`, is `<` with the operands swapped |
| Cursors.Deref | include/statvec.h:805-815 | `*it` on a live position is that live element |
| Cursors.Subscript | include/statvec.h:817-827 | `it[i]` is `*(it + i)` |
| Cursors.StoreAt | include/statvec.h:805-833 | only a mutable cursor gives a writable reference through `*it`, `it[i]` or `it->`; the write sets the pointed-at slot and nothing else |
| Cursors.StoreThroughSubscript | include/statvec.h:817-821 | `it[i] = x` writes the slot that `*(it + i)` and the container's `operator[]` then read as x |
| Cursors.IteratorWriteExamples | test/iterator.cc:119-145 | `*vec.begin() = 10` and `vec.begin()[0] = 10` on a 256-slot {1,2,3} make `vec[0]` read 10 |
| Cursors.AdvanceRetreatInverse | include/statvec.h:867-878 | `-= n` undoes `+= n` and vice versa; `--` undoes `++` |
| Cursors.AdvanceAdditive | include/statvec.h:917-925 | advancing is additive and the order of steps does not matter |
| Cursors.CursorTrichotomy | include/statvec.h:897-915 | exactly one of `<`, `==`, `>` holds between two cursors of one kind |
| Cursors.WalkReadsLive | include/statvec.h:687-715 | `end() - begin()` is the size, and stepping i from begin() dereferences the i-th live element |
| Cursors.ToReadOnlyCommutes | include/statvec.h:939-947 | narrowing to read-only commutes with advancing, distance and ordering |

## Left out

- Copy and move counting (the detector types), value categories and moved-from state: elements are plain values. The lvalue and rvalue overloads of `push_back`, assignment and `reserve` are therefore one member each. The lvalue `insert` is the exception; it is kept separately because it behaves differently.
- `insert(pos, count, value)`: it cannot be instantiated. It returns `true` as an iterator, it names `is_nothrow_assignable_v` with one argument, and it adds the post-decremented, wrapped `count` to the size.
- Reverse iterators: they are the standard library's `std::reverse_iterator` adaptor. The writes through `rbegin()` in the iterator tests are therefore not restated.
- Member-wise writes through `it->`: an element is a single value, so a write through `it->` is modelled as replacing the whole element (Cursors.StoreAt).
- The iterator member `swap`: it swaps through a const reference.
- Default-constructed (null) cursors.
- `noexcept` specifications, type traits, deduction guides, `data()` and inserting elements that alias the container's own storage.
- The `at()` exception text: the failure carries only the index.
- Ranges read through single-pass input iterators: `assign(first, last)` and `insert(pos, first, last)` accept any input iterator but read the range twice, once for `std::distance` and once for the copy. The model takes the range as a sequence, which is what a forward iterator gives; with a single-pass iterator such as `std::istream_iterator` the first read consumes the range before anything is copied.
- In-place construction in `emplace`/`emplace_back`: the model receives the already-built element.
- Widths of `size_type`/`difference_type`: integers are unbounded. The wrap-around of `back()`/`pop_back()` on an empty container is excluded by their preconditions.
- Compare.Lt: its own contract states only the prefix facts. The full lexicographic meaning is proved separately, by Compare.LtIsLexicographic, and only for a `less` that is a strict total order.
- Container.Index: requires i < N, the buffer bound the code needs, rather than i < size. Past the live prefix it reads the slot's leftover contents.
- Container.Front: reads slot 0 with no non-empty requirement, as the code does. Its contract says something only for a non-empty container.

## Findings

| source | as written | input that shows it | evidently intended | confidence | as-written member | corrected member |
|---|---|---|---|---|---|---|
| include/statvec.h:564-566 | lvalue `insert` bumps `size_` before `move_backward(it, end(), end() + 1)`, so it shifts one slot too many | N = 1, size = 0: the full-check passes and the shift writes `buf_[1]` | shift [pos, size) up by one, as the rvalue overload does | high, not executed | Mutators.InsertLvalueAsWritten, Mutators.LvalueInsertOverrunsWithOneFreeSlot | Mutators.InsertOne |
| include/statvec.h:622-633 | `emplace` never increments `size_` | emplace 12 at index 1 of {0,1,2,3}: success, but live is {0,12,1,2} | size grows by one, like insert | high, not executed | Mutators.EmplaceAsWritten, Mutators.EmplaceDropsLastElement | Mutators.Emplace |
| include/statvec.h:428-432 | `assign(first, last)` never sets `size_` when the range fits | assign {1,2,3} to an empty capacity-4 container: returns true, nothing live | size becomes the range length, like `assign(count, value)` | high, not executed | Container.AssignRangeAsWritten, Container.AssignRangeKeepsStaleSize | Container.AssignRange |
| include/statvec.h:521-539 | `reserve<M>` goes through the array constructor, whose `size_{M}` makes all M slots live | {1,2,3,4} reserved to 32: size 32, slot 4 is a value-initialised 0 | min(size, M) live elements, the front of the source's | medium, not executed | Reserve.ReserveAsWritten, Reserve.ReserveAsWrittenGrowsLength | Reserve.Reserve |
