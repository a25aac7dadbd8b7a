/** The capacity-bounded mutators of statvec: resize and clear, the back-end
    push/emplace/pop, and the positional insert, emplace and erase.

    Positions are cursor indices (begin() is 0, end() is size). Failure is
    reported as the source reports it: a false flag, or the end() index for
    the cursor-returning operations.
 */
module Mutators {
  import Shift
  import opened Container

  /** resize(n): never writes a slot. Past the capacity it makes the
      container full and reports false; otherwise it sets the length to n. */
  function Resize<T>(v: StatVec<T>, n: nat): (r: Mutated<T, bool>)
    requires v.Valid()
    ensures r.vec.Valid() && r.vec.buf == v.buf
    ensures r.ret <==> n <= v.Capacity()
    ensures r.vec.size == if n <= v.Capacity() then n else v.Capacity()
  {
    if n > v.Capacity() then Mutated(StatVec(v.buf, v.Capacity()), false)
    else Mutated(StatVec(v.buf, n), true)
  }

  /** clear(): nothing is live afterwards; no slot is written. */
  function Clear<T>(v: StatVec<T>): (r: StatVec<T>)
    requires v.Valid()
    ensures r.Valid() && r.buf == v.buf
    ensures r.Live() == []
  {
    StatVec(v.buf, 0)
  }

  /** Growing with resize does not construct anything: the slots that come
      back into range show whatever they held before. */
  lemma ResizeRevealsReserve<T>(v: StatVec<T>, n: nat)
    requires v.Valid() && v.size <= n <= v.Capacity()
    ensures Resize(v, n).vec.Live() == v.Live() + v.buf[v.size..n]
  {
    assert v.buf[..n] == v.buf[..v.size] + v.buf[v.size..n];
  }

  /** Shrinking and then growing back to the old length restores the
      container exactly, reserve and all. */
  lemma ShrinkThenGrowRestores<T>(v: StatVec<T>, k: nat)
    requires v.Valid() && k <= v.size
    ensures Resize(Resize(v, k).vec, v.size).vec == v
  {
  }

  /** Likewise for clear followed by resize to the old length. */
  lemma ClearThenResizeRestores<T>(v: StatVec<T>)
    requires v.Valid()
    ensures Resize(Clear(v), v.size).vec == v
  {
  }

  /** push_back(value): all or nothing. A full container is left unchanged
      and the call reports false; otherwise `value` goes into slot size, the
      length grows by one and every other slot keeps its contents. */
  function PushBack<T>(v: StatVec<T>, x: T): (r: Mutated<T, bool>)
    requires v.Valid()
    ensures r.vec.Valid() && r.vec.Capacity() == v.Capacity()
    ensures r.ret <==> v.size < v.Capacity()
    ensures !r.ret ==> r.vec == v
    ensures r.ret ==> r.vec.Live() == v.Live() + [x]
    ensures r.ret ==> forall i :: 0 <= i < v.Capacity() && i != v.size ==> r.vec.buf[i] == v.buf[i]
  {
    if v.size == v.Capacity() then Mutated(v, false)
    else Mutated(StatVec(v.buf[v.size := x], v.size + 1), true)
  }

  /** emplace_back(args...): the element built from the arguments (here
      `x`) is placed exactly as push_back places it, with the same
      all-or-nothing failure. */
  function EmplaceBack<T>(v: StatVec<T>, x: T): (r: Mutated<T, bool>)
    requires v.Valid()
    ensures r.vec.Valid() && r.vec.Capacity() == v.Capacity()
    ensures r.ret <==> v.size < v.Capacity()
    ensures !r.ret ==> r.vec == v
    ensures r.ret ==> r.vec.Live() == v.Live() + [x] && r.vec.buf[v.size + 1..] == v.buf[v.size + 1..]
  {
    PushBack(v, x)
  }

  /** pop_back(): returns the last live element and shortens the container
      by one; no slot is written. On an empty container the length would wrap
      around, so the caller must ensure it is non-empty. */
  function PopBack<T>(v: StatVec<T>): (r: Mutated<T, T>)
    requires v.Valid() && v.size > 0
    ensures r.vec.Valid() && r.vec.buf == v.buf
    ensures r.vec.Live() + [r.ret] == v.Live()
  {
    Mutated(StatVec(v.buf, v.size - 1), v.buf[v.size - 1])
  }

  /** A successful push_back followed by pop_back gives the pushed value back
      and restores the length and live elements. The buffer is not fully
      restored: slot size still holds the pushed value. */
  lemma PushThenPop<T>(v: StatVec<T>, x: T)
    requires v.Valid() && v.size < v.Capacity()
    ensures PushBack(v, x).ret
    ensures PopBack(PushBack(v, x).vec).ret == x
    ensures PopBack(PushBack(v, x).vec).vec == StatVec(v.buf[v.size := x], v.size)
    ensures PopBack(PushBack(v, x).vec).vec.Live() == v.Live()
  {
    var pushed := PushBack(v, x).vec;
    assert pushed.buf[v.size] == x;
    assert pushed.buf[..v.size] == v.buf[..v.size];
  }

  /** Pushing back what pop_back returned restores the container exactly. */
  lemma PopThenPush<T>(v: StatVec<T>)
    requires v.Valid() && v.size > 0
    ensures PushBack(PopBack(v).vec, PopBack(v).ret) == Mutated(v, true)
  {
  }

  /** insert(pos, T&&) and the one-element core of every correct insert:
      all or nothing. A full container is left unchanged and end() is
      returned; otherwise the tail [pos, size) moves up one slot, `x` fills
      the gap, the length grows by one, the slots past the new end are
      untouched, and pos is returned. */
  function InsertOne<T>(v: StatVec<T>, p: nat, x: T): (r: Mutated<T, nat>)
    requires v.Valid() && p <= v.size
    ensures r.vec.Valid() && r.vec.Capacity() == v.Capacity()
    ensures v.size == v.Capacity() ==> r == Mutated(v, v.size)
    ensures v.size < v.Capacity() ==>
              && r.ret == p
              && r.vec.size == v.size + 1
              && r.vec.Live() == v.Live()[..p] + [x] + v.Live()[p..]
              && r.vec.buf[v.size + 1..] == v.buf[v.size + 1..]
  {
    if v.size == v.Capacity() then Mutated(v, v.size)
    else
      var shifted := Shift.MovedBackward(v.buf, p, v.size, v.size + 1);
      Shift.InsertShape(v.buf, p, v.size, [x]);
      Mutated(StatVec(Shift.Written(shifted, p, [x]), v.size + 1), p)
  }

  /** insert(pos, first, last): all or nothing. When the range does not fit,
      the container is unchanged and end() is returned; an empty range changes
      nothing and returns pos; otherwise the range is spliced in at pos, the
      length grows by its width, and pos is returned. */
  function InsertRange<T>(v: StatVec<T>, p: nat, src: seq<T>): (r: Mutated<T, nat>)
    requires v.Valid() && p <= v.size
    ensures r.vec.Valid() && r.vec.Capacity() == v.Capacity()
    ensures v.size + |src| > v.Capacity() ==> r == Mutated(v, v.size)
    ensures v.size + |src| <= v.Capacity() ==>
              && r.ret == p
              && r.vec.size == v.size + |src|
              && r.vec.Live() == v.Live()[..p] + src + v.Live()[p..]
              && r.vec.buf[v.size + |src|..] == v.buf[v.size + |src|..]
    ensures |src| == 0 ==> r == Mutated(v, p)
  {
    if v.size + |src| > v.Capacity() then Mutated(v, v.size)
    else if |src| == 0 then
      assert v.Live()[..p] + src + v.Live()[p..] == v.Live();
      Mutated(v, p)
    else
      var w := |src|;
      var shifted := Shift.MovedBackward(v.buf, p, v.size, v.size + w);
      Shift.InsertShape(v.buf, p, v.size, src);
      Mutated(StatVec(Shift.Written(shifted, p, src), v.size + w), p)
  }

  /** The source's lvalue insert stays inside the buffer only when the
      container is full (it then returns early) or has two free slots. */
  predicate LvalueInsertInBounds<T>(v: StatVec<T>) {
    v.size == |v.buf| || v.size + 2 <= |v.buf|
  }

  /** insert(pos, T const&) AS WRITTEN: the length is incremented before the
      shift, so the shift runs over [pos, size + 1) into [pos + 1, size + 2):
      one slot more than needed, which drags the reserve slot at the old size
      up by one. The live result is still right, but with exactly one free
      slot the shift writes one past the buffer, so this model demands the
      bound that the source does not check. */
  function InsertLvalueAsWritten<T>(v: StatVec<T>, p: nat, x: T): (r: Mutated<T, nat>)
    requires v.Valid() && p <= v.size && LvalueInsertInBounds(v)
    ensures r.vec.Valid() && r.vec.Capacity() == v.Capacity()
    ensures v.size == v.Capacity() ==> r == Mutated(v, v.size)
    ensures v.size < v.Capacity() ==>
              && r.ret == p
              && r.vec.size == v.size + 1
              && r.vec.Live() == v.Live()[..p] + [x] + v.Live()[p..]
              && r.vec.buf[v.size + 1] == v.buf[v.size]
              && r.vec.buf[v.size + 2..] == v.buf[v.size + 2..]
  {
    if v.size == v.Capacity() then Mutated(v, v.size)
    else
      var shifted := Shift.MovedBackward(v.buf, p, v.size + 1, v.size + 2);
      Shift.InsertShape(v.buf, p, v.size + 1, [x]);
      assert v.buf[..v.size + 1][..p] == v.Live()[..p];
      assert v.buf[p..v.size + 1] == v.Live()[p..] + [v.buf[v.size]];
      Mutated(StatVec(Shift.Written(shifted, p, [x]), v.size + 1), p)
  }

  /** With one free slot the early return is skipped, and after ++size_ the
      shift move_backward(pos, end(), end() + 1) has its destination end at
      size + 2 = N + 1: one slot past the buffer, outside the bound this
      model demands. A one-slot empty container (N = 1, size = 0) is such an
      input. */
  lemma LvalueInsertOverrunsWithOneFreeSlot<T>(v: StatVec<T>)
    requires v.Valid() && v.size + 1 == v.Capacity()
    ensures v.size != v.Capacity()
    ensures (v.size + 1) + 1 == v.Capacity() + 1
    ensures !LvalueInsertInBounds(v)
  {
  }

  /** Wherever the lvalue insert stays in bounds, its live result is the
      correct insert's; it differs only in the reserve slot it drags along. */
  lemma LvalueInsertAgreesWithInsertOne<T>(v: StatVec<T>, p: nat, x: T)
    requires v.Valid() && p <= v.size && LvalueInsertInBounds(v)
    ensures InsertLvalueAsWritten(v, p, x).ret == InsertOne(v, p, x).ret
    ensures InsertLvalueAsWritten(v, p, x).vec.size == InsertOne(v, p, x).vec.size
    ensures InsertLvalueAsWritten(v, p, x).vec.Live() == InsertOne(v, p, x).vec.Live()
  {
  }

  /** emplace(pos, args...) AS WRITTEN: it shifts and places the new element
      like InsertOne but never increments size_, so the old last live element
      drops into the reserve (and an element emplaced at end() is not live
      at all). */
  function EmplaceAsWritten<T>(v: StatVec<T>, p: nat, x: T): (r: Mutated<T, nat>)
    requires v.Valid() && p <= v.size
    ensures r.vec.Valid() && r.vec.Capacity() == v.Capacity()
    ensures v.size == v.Capacity() ==> r == Mutated(v, v.size)
    ensures v.size < v.Capacity() ==>
              && r.ret == p
              && r.vec.size == v.size
              && r.vec.Live() == (v.Live()[..p] + [x] + v.Live()[p..])[..v.size]
              && r.vec.buf[v.size] == (if p == v.size then x else v.buf[v.size - 1])
              && r.vec.buf[v.size + 1..] == v.buf[v.size + 1..]
  {
    if v.size == v.Capacity() then Mutated(v, v.size)
    else
      var shifted := Shift.MovedBackward(v.buf, p, v.size, v.size + 1);
      Shift.InsertShape(v.buf, p, v.size, [x]);
      var b := Shift.Written(shifted, p, [x]);
      assert b[..v.size] == b[..v.size + 1][..v.size];
      Mutated(StatVec(b, v.size), p)
  }

  /** Modelled on the source's emplace test, on ints: emplacing 12 at index 1 of
      {0, 1, 2, 3} reports success, yet the length stays 4 and 3 is no
      longer live; the corrected emplace keeps all five. */
  lemma EmplaceDropsLastElement()
    ensures EmplaceAsWritten(FromList(8, [0, 1, 2, 3], 0), 1, 12).ret == 1
    ensures EmplaceAsWritten(FromList(8, [0, 1, 2, 3], 0), 1, 12).vec.Live() == [0, 12, 1, 2]
    ensures Emplace(FromList(8, [0, 1, 2, 3], 0), 1, 12).vec.Live() == [0, 12, 1, 2, 3]
  {
    var v := FromList(8, [0, 1, 2, 3], 0);
    assert v.Live()[..1] + [12] + v.Live()[1..] == [0, 12, 1, 2, 3];
  }

  /** emplace(pos, args...) as intended: the element built from the arguments
      is inserted exactly as InsertOne inserts it, growing the length. */
  function Emplace<T>(v: StatVec<T>, p: nat, x: T): (r: Mutated<T, nat>)
    requires v.Valid() && p <= v.size
    ensures r.vec.Valid() && r.vec.Capacity() == v.Capacity()
    ensures v.size == v.Capacity() ==> r == Mutated(v, v.size)
    ensures v.size < v.Capacity() ==>
              && r.ret == p
              && r.vec.size == v.size + 1
              && r.vec.Live() == v.Live()[..p] + [x] + v.Live()[p..]
              && r.vec.buf[v.size + 1..] == v.buf[v.size + 1..]
  {
    InsertOne(v, p, x)
  }

  /** erase(pos): the tail after pos moves down one slot, the length drops by
      one, the slots from the new end on keep their contents, and pos is
      returned, which is the new end() exactly when the last element was
      erased. */
  function EraseOne<T>(v: StatVec<T>, p: nat): (r: Mutated<T, nat>)
    requires v.Valid() && p < v.size
    ensures r.vec.Valid() && r.vec.Capacity() == v.Capacity()
    ensures r.ret == p && r.vec.size == v.size - 1
    ensures r.vec.Live() == v.Live()[..p] + v.Live()[p + 1..]
    ensures r.vec.buf[v.size - 1..] == v.buf[v.size - 1..]
    ensures r.ret == r.vec.size <==> p == v.size - 1
  {
    Shift.EraseShape(v.buf, p, p + 1, v.size);
    Mutated(StatVec(Shift.MovedForward(v.buf, p + 1, v.size, p), v.size - 1), p)
  }

  /** erase(first, last): the tail from last moves down onto first, the length
      drops by exactly last - first, the slots from the new end on keep their
      contents, and first is returned, which is the new end() exactly when
      the erased span reached the old end. */
  function EraseRange<T>(v: StatVec<T>, f: nat, l: nat): (r: Mutated<T, nat>)
    requires v.Valid() && f <= l <= v.size
    ensures r.vec.Valid() && r.vec.Capacity() == v.Capacity()
    ensures r.ret == f && r.vec.size == v.size - (l - f)
    ensures r.vec.Live() == v.Live()[..f] + v.Live()[l..]
    ensures r.vec.buf[r.vec.size..] == v.buf[r.vec.size..]
    ensures r.ret == r.vec.size <==> l == v.size
  {
    Shift.EraseShape(v.buf, f, l, v.size);
    Mutated(StatVec(Shift.MovedForward(v.buf, l, v.size, f), v.size - (l - f)), f)
  }

  /** Erasing the element just inserted restores the live elements. */
  lemma InsertThenErase<T>(v: StatVec<T>, p: nat, x: T)
    requires v.Valid() && p <= v.size < v.Capacity()
    ensures p < InsertOne(v, p, x).vec.size
    ensures EraseOne(InsertOne(v, p, x).vec, p).vec.Live() == v.Live()
  {
    var ins := InsertOne(v, p, x).vec;
    var mid := v.Live()[..p] + [x] + v.Live()[p..];
    assert mid[..p] == v.Live()[..p];
    assert mid[p + 1..] == v.Live()[p..];
    assert v.Live()[..p] + v.Live()[p..] == v.Live();
  }

  /** Erasing the span a successful range insert filled restores the live
      elements. */
  lemma InsertRangeThenEraseRange<T>(v: StatVec<T>, p: nat, src: seq<T>)
    requires v.Valid() && p <= v.size && v.size + |src| <= v.Capacity()
    ensures p + |src| <= InsertRange(v, p, src).vec.size
    ensures EraseRange(InsertRange(v, p, src).vec, p, p + |src|).vec.Live() == v.Live()
  {
    var mid := v.Live()[..p] + src + v.Live()[p..];
    assert mid[..p] == v.Live()[..p];
    assert mid[p + |src|..] == v.Live()[p..];
    assert v.Live()[..p] + v.Live()[p..] == v.Live();
  }

  /** A single-element erase is the range erase of width one. */
  lemma EraseOneIsRangeOfOne<T>(v: StatVec<T>, p: nat)
    requires v.Valid() && p < v.size
    ensures EraseOne(v, p) == EraseRange(v, p, p + 1)
  {
  }
}
