/** Capacity conversion: the member reserve<M>() and the free function
    statvec_reserve<M>(vec), which forwards to it.

    reserve<M> builds a std::array<T, M> from the first min(N, M) slots of the
    buffer, live or not (slots past N are value-initialised), and passes it to
    the array constructor of statvec<T, M>, which sets size_ to M. So the
    result is always full, whatever the source's length.
 */
module Reserve {
  import opened Container

  function Min(a: nat, b: nat): nat {
    if a <= b then a else b
  }

  /** reserve<M>() AS WRITTEN: forward_array<M> builds an M-long array from
      the first min(N, M) raw slots and value-initialised slots after them,
      and the array constructor of statvec<T, M> makes all M of them live. */
  function ReserveAsWritten<T>(v: StatVec<T>, m: nat, dflt: T): (r: StatVec<T>)
    requires v.Valid() && 1 <= m
    ensures r.Valid() && r.Capacity() == m
    ensures forall i :: 0 <= i < Min(v.Capacity(), m) ==> r.buf[i] == v.buf[i]
    ensures forall i :: Min(v.Capacity(), m) <= i < m ==> r.buf[i] == dflt
    ensures r.size == m
  {
    FromArray(m, Filled(m, v.buf[..Min(v.Capacity(), m)], dflt), dflt)
  }

  /** statvec_reserve<M>(vec): forwards to the member, so it has the same
      capacity, the same copied slots and the same full length. */
  function StatvecReserve<T>(v: StatVec<T>, m: nat, dflt: T): (r: StatVec<T>)
    requires v.Valid() && 1 <= m
    ensures r.Valid() && r.Capacity() == m && r.size == m
    ensures forall i :: 0 <= i < Min(v.Capacity(), m) ==> r.buf[i] == v.buf[i]
    ensures forall i :: Min(v.Capacity(), m) <= i < m ==> r.buf[i] == dflt
  {
    ReserveAsWritten(v, m, dflt)
  }

  /** reserve<M>() as intended: the same buffer, but only min(size, M)
      elements live, the front of the source's live elements. */
  function Reserve<T>(v: StatVec<T>, m: nat, dflt: T): (r: StatVec<T>)
    requires v.Valid() && 1 <= m
    ensures r.Valid() && r.Capacity() == m
    ensures forall i :: 0 <= i < Min(v.Capacity(), m) ==> r.buf[i] == v.buf[i]
    ensures forall i :: Min(v.Capacity(), m) <= i < m ==> r.buf[i] == dflt
    ensures r.Live() == v.Live()[..Min(v.size, m)]
  {
    var r := ReserveAsWritten(v, m, dflt).(size := Min(v.size, m));
    assert r.Live() == v.buf[..Min(v.size, m)];
    r
  }

  /** As written, reserving a container that is not full makes more elements
      live than it held: the source's reserve slots and value-initialised
      slots come into view. The intended conversion keeps the live elements. */
  lemma ReserveAsWrittenGrowsLength<T>(v: StatVec<T>, m: nat, dflt: T)
    requires v.Valid() && 1 <= m && v.size < m
    ensures ReserveAsWritten(v, m, dflt).size != v.size
    ensures Reserve(v, m, dflt).Live() == v.Live()
  {
  }

  /** The source's reserve test: {1, 2, 3, 4} reserved to 32 keeps 1 and 4 in
      slots 0 and 3, but reports 32 live elements, 28 of them zero. */
  lemma ReserveTestExample()
    ensures ReserveAsWritten(FromList(4, [1, 2, 3, 4], 0), 32, 0).buf[0] == 1
    ensures ReserveAsWritten(FromList(4, [1, 2, 3, 4], 0), 32, 0).buf[3] == 4
    ensures ReserveAsWritten(FromList(4, [1, 2, 3, 4], 0), 32, 0).size == 32
    ensures ReserveAsWritten(FromList(4, [1, 2, 3, 4], 0), 32, 0).Live()[4] == 0
    ensures Reserve(FromList(4, [1, 2, 3, 4], 0), 32, 0).Live() == [1, 2, 3, 4]
  {
    assert FromList(4, [1, 2, 3, 4], 0).buf[..4] == [1, 2, 3, 4];
  }

  /** Widening and then narrowing back gives the original container: the
      intended conversion loses nothing when M >= N. */
  lemma ReserveRoundTrip<T>(v: StatVec<T>, m: nat, dflt: T)
    requires v.Valid() && v.Capacity() <= m
    ensures Reserve(Reserve(v, m, dflt), v.Capacity(), dflt) == v
  {
    var w := Reserve(v, m, dflt);
    var back := Reserve(w, v.Capacity(), dflt);
    assert back.buf == v.buf;
  }

  /** As written the same round trip restores the buffer but not the length:
      the result is always full. */
  lemma ReserveAsWrittenRoundTrip<T>(v: StatVec<T>, m: nat, dflt: T)
    requires v.Valid() && v.Capacity() <= m
    ensures ReserveAsWritten(ReserveAsWritten(v, m, dflt), v.Capacity(), dflt) == StatVec(v.buf, v.Capacity())
  {
    var w := ReserveAsWritten(v, m, dflt);
    var back := ReserveAsWritten(w, v.Capacity(), dflt);
    assert back.buf == v.buf;
  }
}
