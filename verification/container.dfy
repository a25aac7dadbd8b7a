/** statvec<T, N>: N inline slots plus a logical length, with its
    constructors, assignments, element access and size queries.

    The capacity N is the length of `buf`. The whole buffer is kept, not only
    the live prefix, because several operations make old reserve contents
    visible again (resize, the range assign) or copy raw slots (copy
    construction, reserve). `dflt` stands for a value-initialised T{}.
 */
module Container {
  import Shift

  datatype StatVec<T> = StatVec(buf: seq<T>, size: nat) {
    /** The class invariant: N >= 1 (static_assert(N)) and size <= N. */
    predicate Valid() {
      1 <= |buf| && size <= |buf|
    }

    /** capacity(): the fixed N. */
    function Capacity(): nat {
      |buf|
    }

    /** The live, externally visible elements: slots [0, size). */
    function Live(): seq<T>
      requires Valid()
    {
      buf[..size]
    }
  }

  /** What a mutator leaves behind: the container afterwards and the value the
      call returned (a success flag, a cursor index, an element). */
  datatype Mutated<T, R> = Mutated(vec: StatVec<T>, ret: R)

  /** The outcome of at(): the element, or the out_of_range failure carrying
      the offending index. */
  datatype Checked<T> = Found(value: T) | OutOfRange(index: nat)

  /** The buffer of a freshly built container: `prefix` in the first slots,
      value-initialised slots after it. */
  function Filled<T>(n: nat, prefix: seq<T>, dflt: T): (b: seq<T>)
    requires |prefix| <= n
    ensures |b| == n && b[..|prefix|] == prefix
    ensures forall i :: |prefix| <= i < n ==> b[i] == dflt
  {
    prefix + seq(n - |prefix|, _ => dflt)
  }

  /** statvec(): every slot value-initialised, nothing live. */
  function Default<T>(n: nat, dflt: T): (v: StatVec<T>)
    requires 1 <= n
    ensures v.Valid() && v.Capacity() == n
    ensures v.Live() == []
    ensures forall i :: 0 <= i < n ==> v.buf[i] == dflt
  {
    StatVec(Filled(n, [], dflt), 0)
  }

  /** statvec(first, rest...): the arguments fill the first slots in order and
      become the live elements; at least one argument, at most N of them. */
  function FromList<T>(n: nat, args: seq<T>, dflt: T): (v: StatVec<T>)
    requires 1 <= |args| <= n
    ensures v.Valid() && v.Capacity() == n
    ensures v.Live() == args
    ensures forall i :: |args| <= i < n ==> v.buf[i] == dflt
  {
    StatVec(Filled(n, args, dflt), |args|)
  }

  /** statvec(std::array<T, M>): the array fills the first M slots and
      becomes the live elements, size_ = M; M may not exceed N. */
  function FromArray<T>(n: nat, arr: seq<T>, dflt: T): (v: StatVec<T>)
    requires 1 <= n && |arr| <= n
    ensures v.Valid() && v.Capacity() == n
    ensures v.Live() == arr && v.size == |arr|
    ensures forall i :: |arr| <= i < n ==> v.buf[i] == dflt
  {
    StatVec(Filled(n, arr, dflt), |arr|)
  }

  /** statvec(statvec const&) (and the move constructor, the same on values):
      the defaulted member-wise copy takes all N slots and the length, so the
      copy is indistinguishable from the original, reserve slots included. */
  function CopyOf<T>(v: StatVec<T>): (r: StatVec<T>)
    requires v.Valid()
    ensures r.Valid() && r.Capacity() == v.Capacity()
    ensures r.Live() == v.Live() && r.buf[v.size..] == v.buf[v.size..]
  {
    v
  }

  /** operator=(statvec const&) (and the move form, which is the same on
      values): std::copy of the other's live elements over the first slots,
      then its size. This container's slots past the other's size keep their
      contents, unlike copy construction, which copies all N slots. */
  function CopyAssign<T>(dst: StatVec<T>, src: StatVec<T>): (r: StatVec<T>)
    requires dst.Valid() && src.Valid() && dst.Capacity() == src.Capacity()
    ensures r.Valid() && r.Capacity() == dst.Capacity()
    ensures r.Live() == src.Live()
    ensures r.buf[src.size..] == dst.buf[src.size..]
  {
    StatVec(Shift.Written(dst.buf, 0, src.Live()), src.size)
  }

  /** Copy assignment yields the same value as copy construction exactly when
      the destination's slots past the source's length already match the
      source's. */
  lemma CopyAssignVersusCopy<T>(dst: StatVec<T>, src: StatVec<T>)
    requires dst.Valid() && src.Valid() && dst.Capacity() == src.Capacity()
    ensures CopyAssign(dst, src) == CopyOf(src) <==> dst.buf[src.size..] == src.buf[src.size..]
  {
    var r := CopyAssign(dst, src);
    if dst.buf[src.size..] == src.buf[src.size..] {
      assert r.buf == r.buf[..src.size] + r.buf[src.size..];
      assert src.buf == src.buf[..src.size] + src.buf[src.size..];
    }
  }

  /** operator=(std::array<T, N>): copies all N array elements and makes the
      container full. */
  function ArrayAssign<T>(dst: StatVec<T>, arr: seq<T>): (r: StatVec<T>)
    requires dst.Valid() && |arr| == dst.Capacity()
    ensures r.Valid() && r.Capacity() == dst.Capacity()
    ensures r.Live() == arr && r.size == r.Capacity()
  {
    StatVec(Shift.Written(dst.buf, 0, arr), |arr|)
  }

  /** assign(count, value): partial fill. On overflow every slot becomes
      `value`, the container is full and the call reports false; otherwise
      exactly `count` copies become the live elements and the slots past them
      are untouched. */
  function AssignFill<T>(v: StatVec<T>, count: nat, x: T): (r: Mutated<T, bool>)
    requires v.Valid()
    ensures r.vec.Valid() && r.vec.Capacity() == v.Capacity()
    ensures r.ret <==> count <= v.Capacity()
    ensures r.vec.size == if count <= v.Capacity() then count else v.Capacity()
    ensures forall i :: 0 <= i < r.vec.size ==> r.vec.Live()[i] == x
    ensures r.vec.buf[r.vec.size..] == v.buf[r.vec.size..]
  {
    if count > v.Capacity() then
      Mutated(StatVec(Shift.Written(v.buf, 0, seq(v.Capacity(), _ => x)), v.Capacity()), false)
    else
      Mutated(StatVec(Shift.Written(v.buf, 0, seq(count, _ => x)), count), true)
  }

  /** assign(first, last) AS WRITTEN. On overflow the first N source elements
      fill the container, which becomes full, and the call reports false. When
      the range fits, its elements are copied over the first slots but size_
      is never updated: the live length stays what it was. */
  function AssignRangeAsWritten<T>(v: StatVec<T>, src: seq<T>): (r: Mutated<T, bool>)
    requires v.Valid()
    ensures r.vec.Valid() && r.vec.Capacity() == v.Capacity()
    ensures r.ret <==> |src| <= v.Capacity()
    ensures !r.ret ==> r.vec.Live() == src[..v.Capacity()]
    ensures r.ret ==> r.vec.size == v.size
    ensures r.ret ==> r.vec.buf[..|src|] == src && r.vec.buf[|src|..] == v.buf[|src|..]
  {
    if |src| > v.Capacity() then
      Mutated(StatVec(src[..v.Capacity()], v.Capacity()), false)
    else
      Mutated(StatVec(Shift.Written(v.buf, 0, src), v.size), true)
  }

  /** assign(first, last) as intended: the same partial-fill policy as
      AssignFill, so a range that fits becomes exactly the live elements. */
  function AssignRange<T>(v: StatVec<T>, src: seq<T>): (r: Mutated<T, bool>)
    requires v.Valid()
    ensures r.vec.Valid() && r.vec.Capacity() == v.Capacity()
    ensures r.ret <==> |src| <= v.Capacity()
    ensures r.vec.Live() == if r.ret then src else src[..v.Capacity()]
    ensures r.vec.buf[r.vec.size..] == v.buf[r.vec.size..]
  {
    if |src| > v.Capacity() then
      Mutated(StatVec(src[..v.Capacity()], v.Capacity()), false)
    else
      Mutated(StatVec(Shift.Written(v.buf, 0, src), |src|), true)
  }

  /** The range assign as written leaves a stale length: assigning three
      elements to an empty four-slot container reports success, yet nothing is
      live afterwards; the intended assign makes the three elements live. */
  lemma AssignRangeKeepsStaleSize()
    ensures AssignRangeAsWritten(Default(4, 0), [1, 2, 3]).ret
    ensures AssignRangeAsWritten(Default(4, 0), [1, 2, 3]).vec.Live() == []
    ensures AssignRange(Default(4, 0), [1, 2, 3]).vec.Live() == [1, 2, 3]
  {
  }

  /** The range assign as written and the intended one give the same result
      exactly when the range overflows or its length is already the live
      length. */
  lemma AssignRangeAgreesIff<T>(v: StatVec<T>, src: seq<T>)
    requires v.Valid()
    ensures AssignRangeAsWritten(v, src) == AssignRange(v, src) <==> |src| > v.Capacity() || |src| == v.size
  {
  }

  /** swap(other): exchanges all N slots and the lengths of two containers of
      the same capacity. */
  function Swap<T>(a: StatVec<T>, b: StatVec<T>): (r: (StatVec<T>, StatVec<T>))
    requires a.Valid() && b.Valid() && a.Capacity() == b.Capacity()
    ensures r.0.Valid() && r.1.Valid()
    ensures r.0.Live() == b.Live() && r.1.Live() == a.Live()
    ensures r.0.buf == b.buf && r.1.buf == a.buf
  {
    (b, a)
  }

  /** Swapping twice gives both containers back. */
  lemma SwapInvolution<T>(a: StatVec<T>, b: StatVec<T>)
    requires a.Valid() && b.Valid() && a.Capacity() == b.Capacity()
    ensures Swap(Swap(a, b).0, Swap(a, b).1) == (a, b)
  {
  }

  /** operator[](i): unchecked access to slot i; within the live prefix it is
      the i-th live element, past it the slot's leftover contents. */
  function Index<T>(v: StatVec<T>, i: nat): (r: T)
    requires v.Valid() && i < v.Capacity()
    ensures i < v.size ==> r == v.Live()[i]
  {
    v.buf[i]
  }

  /** at(i): checked access. It fails with out_of_range exactly when
      i >= size(), and otherwise gives the i-th live element. */
  function At<T>(v: StatVec<T>, i: nat): (r: Checked<T>)
    requires v.Valid()
    ensures r.Found? <==> i < v.size
    ensures r.Found? ==> r.value == v.Live()[i]
    ensures r.OutOfRange? ==> r.index == i
  {
    if i >= v.size then OutOfRange(i) else Found(v.buf[i])
  }

  /** front(): slot 0, which always exists since N >= 1; on a non-empty
      container it is the first live element. */
  function Front<T>(v: StatVec<T>): (r: T)
    requires v.Valid()
    ensures v.size > 0 ==> r == v.Live()[0]
  {
    v.buf[0]
  }

  /** back(): slot size() - 1; on an empty container that index wraps around,
      so the caller must ensure the container is non-empty. */
  function Back<T>(v: StatVec<T>): (r: T)
    requires v.Valid() && v.size > 0
    ensures r == v.Live()[|v.Live()| - 1]
  {
    v.buf[v.size - 1]
  }

  /** Writing through the non-const reference that operator[], at(), front()
      or back() returns: slot i takes x, and the length and every other slot
      stay as they were. */
  function Store<T>(v: StatVec<T>, i: nat, x: T): (r: StatVec<T>)
    requires v.Valid() && i < v.Capacity()
    ensures r.Valid() && r.Capacity() == v.Capacity() && r.size == v.size
    ensures Index(r, i) == x
    ensures forall j :: 0 <= j < v.Capacity() && j != i ==> r.buf[j] == v.buf[j]
    ensures i < v.size ==> r.Live() == v.Live()[i := x]
  {
    v.(buf := v.buf[i := x])
  }

  /** Reading back after a write: the written slot yields the new value,
      through operator[] and, when it is live, through at(); every other
      index reads as before, and at()'s failures are unchanged. */
  lemma StoreThenRead<T>(v: StatVec<T>, i: nat, j: nat, x: T)
    requires v.Valid() && i < v.Capacity() && j < v.Capacity()
    ensures Index(Store(v, i, x), j) == if j == i then x else Index(v, j)
    ensures At(Store(v, i, x), j) == if j == i && i < v.size then Found(x) else At(v, j)
  {
  }

  /** Writing back the value a slot already holds changes nothing, and of two
      writes to one slot the later wins. */
  lemma StoreIdempotence<T>(v: StatVec<T>, i: nat, x: T, y: T)
    requires v.Valid() && i < v.Capacity()
    ensures Store(v, i, Index(v, i)) == v
    ensures Store(Store(v, i, x), i, y) == Store(v, i, y)
  {
  }

  /** The source's accessor modification tests: vec[2] = 37 and
      vec.at(2) = 37 on {1, 2, 3}, front() = 32 and back() = 32 on
      {1, 2, 3, 45}. */
  lemma AccessorWriteExamples()
    ensures Index(Store(FromList(3, [1, 2, 3], 0), 2, 37), 2) == 37
    ensures At(Store(FromList(3, [1, 2, 3], 0), 2, 37), 2) == Found(37)
    ensures Index(Store(FromList(4, [1, 2, 3, 45], 0), 0, 32), 0) == 32
    ensures Index(Store(FromList(4, [1, 2, 3, 45], 0), 3, 32), 3) == 32
  {
  }

  /** empty(): no live elements. */
  function IsEmpty<T>(v: StatVec<T>): (r: bool)
    requires v.Valid()
    ensures r <==> v.Live() == []
  {
    v.size == 0
  }

  /** size(): the number of live elements, never more than the capacity. */
  function Size<T>(v: StatVec<T>): (r: nat)
    requires v.Valid()
    ensures r == |v.Live()| && r <= v.Capacity()
  {
    v.size
  }

  /** capacity(): the fixed N, at least one and never below the live count. */
  function Capacity<T>(v: StatVec<T>): (r: nat)
    requires v.Valid()
    ensures r == |v.buf| && r >= 1 && r >= |v.Live()|
  {
    v.Capacity()
  }

  /** max_size(): the same fixed N as capacity(), whatever is live. */
  function MaxSize<T>(v: StatVec<T>): (r: nat)
    requires v.Valid()
    ensures r == |v.buf| && r >= 1
  {
    v.Capacity()
  }
}
