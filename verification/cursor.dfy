/** The cursor family: iterator and const_iterator over a statvec.

    A cursor is a pointer into the buffer, so it is modelled as the index it
    points at, plus whether it grants mutable or read-only access. begin() is
    index 0 and end() is index size. Arithmetic, ordering and difference are
    integer operations on the index; the read-only cursor can be built from
    a mutable one, never the other way. Both kinds compare and subtract only
    against their own kind, as the source's operators do.
 */
module Cursors {
  import opened Container

  datatype Access = Mutable | ReadOnly

  datatype Cursor = Cursor(pos: int, access: Access)

  /** begin() / cbegin(): the first slot. */
  function Begin(access: Access): (c: Cursor)
    ensures c.pos == 0 && c.access == access
  {
    Cursor(0, access)
  }

  /** end() / cend(): one past the last live element. */
  function End<T>(v: StatVec<T>, access: Access): (c: Cursor)
    requires v.Valid()
    ensures c.pos == |v.Live()| && c.access == access
  {
    Cursor(v.size, access)
  }

  /** const_iterator(iterator) and const_iterator = iterator: copies the
      position and narrows the access. */
  function ToReadOnly(c: Cursor): (r: Cursor)
    requires c.access == Mutable
    ensures r.pos == c.pos && r.access == ReadOnly
  {
    Cursor(c.pos, ReadOnly)
  }

  /** operator+=(n), operator+(it, n) and operator+(n, it). */
  function Advance(c: Cursor, n: int): (r: Cursor)
    ensures r.access == c.access
    ensures Distance(r, c) == n
  {
    Cursor(c.pos + n, c.access)
  }

  /** operator-=(n) and operator-(it, n): advancing by -n. */
  function Retreat(c: Cursor, n: int): (r: Cursor)
    ensures r.access == c.access
    ensures Distance(c, r) == n
  {
    Advance(c, -n)
  }

  /** Prefix operator++: the next slot. */
  function Inc(c: Cursor): (r: Cursor)
    ensures r.access == c.access && Distance(r, c) == 1
  {
    Advance(c, 1)
  }

  /** Prefix operator--: the previous slot. */
  function Dec(c: Cursor): (r: Cursor)
    ensures r.access == c.access && Distance(c, r) == 1
  {
    Advance(c, -1)
  }

  /** Postfix operator++: the cursor moves on, the call yields its old value. */
  function PostInc(c: Cursor): (r: (Cursor, Cursor))
    ensures r.1 == c && Dec(r.0) == c
  {
    (Inc(c), c)
  }

  /** Postfix operator--: the cursor moves back, the call yields its old value. */
  function PostDec(c: Cursor): (r: (Cursor, Cursor))
    ensures r.1 == c && Inc(r.0) == c
  {
    (Dec(c), c)
  }

  /** operator-(lhs, rhs): the signed number of slots from rhs to lhs. */
  function Distance(a: Cursor, b: Cursor): (r: int)
    requires a.access == b.access
    ensures b.pos + r == a.pos
  {
    a.pos - b.pos
  }

  /** operator== and operator!=: the same slot. */
  function Equal(a: Cursor, b: Cursor): (r: bool)
    requires a.access == b.access
    ensures r <==> a == b
  {
    a.pos == b.pos
  }

  /** operator<=. */
  function LessEq(a: Cursor, b: Cursor): (r: bool)
    requires a.access == b.access
    ensures r <==> Distance(b, a) >= 0
  {
    a.pos <= b.pos
  }

  /** operator>=. */
  function GreaterEq(a: Cursor, b: Cursor): (r: bool)
    requires a.access == b.access
    ensures r <==> Distance(a, b) >= 0
  {
    a.pos >= b.pos
  }

  /** operator<, written in the source as !(lhs >= rhs). */
  function Less(a: Cursor, b: Cursor): (r: bool)
    requires a.access == b.access
    ensures r <==> LessEq(a, b) && !Equal(a, b)
    ensures r <==> Distance(b, a) > 0
  {
    !GreaterEq(a, b)
  }

  /** operator>, written in the source as !(lhs <= rhs). */
  function Greater(a: Cursor, b: Cursor): (r: bool)
    requires a.access == b.access
    ensures r <==> Less(b, a)
  {
    !LessEq(a, b)
  }

  /** operator*: the slot the cursor points at. Dereferencing outside the
      buffer is undefined, so the caller keeps the cursor inside it. */
  function Deref<T>(v: StatVec<T>, c: Cursor): (r: T)
    requires v.Valid() && 0 <= c.pos < v.Capacity()
    ensures c.pos < v.size ==> r == v.Live()[c.pos]
  {
    v.buf[c.pos]
  }

  /** operator[](i): the slot i places from the cursor, the same as
      dereferencing the advanced cursor. */
  function Subscript<T>(v: StatVec<T>, c: Cursor, i: int): (r: T)
    requires v.Valid() && 0 <= c.pos + i < v.Capacity()
    ensures r == Deref(v, Advance(c, i))
  {
    v.buf[c.pos + i]
  }

  /** Writing through *it, it[i] or it->: only a mutable cursor hands out a
      writable reference, and the write lands in the slot it points at,
      leaving the length and every other slot as they were. */
  function StoreAt<T>(v: StatVec<T>, c: Cursor, x: T): (r: StatVec<T>)
    requires v.Valid() && c.access == Mutable && 0 <= c.pos < v.Capacity()
    ensures r.Valid() && r.Capacity() == v.Capacity() && r.size == v.size
    ensures Deref(r, c) == x
    ensures forall j :: 0 <= j < v.Capacity() && j != c.pos ==> r.buf[j] == v.buf[j]
    ensures c.pos < v.size ==> r.Live() == v.Live()[c.pos := x]
  {
    Store(v, c.pos, x)
  }

  /** it[i] = x writes the slot that *(it + i) reads, and the element is the
      one operator[] on the container sees. */
  lemma StoreThroughSubscript<T>(v: StatVec<T>, c: Cursor, i: int, x: T)
    requires v.Valid() && c.access == Mutable && 0 <= c.pos + i < v.Capacity()
    ensures Subscript(StoreAt(v, Advance(c, i), x), c, i) == x
    ensures Index(StoreAt(v, Advance(c, i), x), c.pos + i) == x
  {
  }

  /** The source's iterator modification tests on a 256-slot {1, 2, 3}:
      *vec.begin() = 10 and vec.begin()[0] = 10 both make vec[0] read 10. */
  lemma IteratorWriteExamples()
    ensures Index(StoreAt(FromList(256, [1, 2, 3], 0), Begin(Mutable), 10), 0) == 10
    ensures Index(StoreAt(FromList(256, [1, 2, 3], 0), Advance(Begin(Mutable), 0), 10), 0) == 10
  {
  }

  /** Retreating undoes advancing, and the other way round; ++ and -- are
      inverse. */
  lemma AdvanceRetreatInverse(c: Cursor, n: int)
    ensures Retreat(Advance(c, n), n) == c
    ensures Advance(Retreat(c, n), n) == c
    ensures Dec(Inc(c)) == c && Inc(Dec(c)) == c
  {
  }

  /** Advancing is additive, so n + it and it + n agree however the steps
      are grouped. */
  lemma AdvanceAdditive(c: Cursor, m: int, n: int)
    ensures Advance(Advance(c, m), n) == Advance(c, m + n)
    ensures Advance(Advance(c, m), n) == Advance(Advance(c, n), m)
  {
  }

  /** Exactly one of <, == and > holds between two cursors of one kind. */
  lemma CursorTrichotomy(a: Cursor, b: Cursor)
    requires a.access == b.access
    ensures Less(a, b) || Equal(a, b) || Greater(a, b)
    ensures !(Less(a, b) && Equal(a, b)) && !(Less(a, b) && Greater(a, b)) && !(Equal(a, b) && Greater(a, b))
  {
  }

  /** Walking from begin() to end() reads exactly the live elements: end()
      is size steps past begin(), and the i-th step dereferences the i-th
      live element, whichever kind of cursor is used. */
  lemma WalkReadsLive<T>(v: StatVec<T>, access: Access)
    requires v.Valid()
    ensures Distance(End(v, access), Begin(access)) == |v.Live()|
    ensures forall i :: 0 <= i < v.size ==> Deref(v, Advance(Begin(access), i)) == v.Live()[i]
  {
  }

  /** Narrowing to read-only keeps the position, so it commutes with moving
      the cursor and with measuring distances. */
  lemma ToReadOnlyCommutes(c: Cursor, d: Cursor, n: int)
    requires c.access == Mutable && d.access == Mutable
    ensures ToReadOnly(Advance(c, n)) == Advance(ToReadOnly(c), n)
    ensures Distance(ToReadOnly(c), ToReadOnly(d)) == Distance(c, d)
    ensures Less(ToReadOnly(c), ToReadOnly(d)) == Less(c, d)
  {
  }
}
