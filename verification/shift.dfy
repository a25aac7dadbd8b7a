/** The element moves behind insert, emplace and erase.

    std::move_backward shifts a range toward higher indices and runs from the
    high end down; std::move shifts a range toward lower indices and runs from
    the low end up. Either order is what makes the overlapping shift safe. The
    model treats elements as values, so a moved-from slot keeps the value it
    held (as it does for trivially copyable element types).
 */
module Shift {

  /** `buf` with the slots [at, at + |src|) overwritten by `src`: std::copy into
      storage that does not overlap the source range. */
  function Written<T>(buf: seq<T>, at: nat, src: seq<T>): (r: seq<T>)
    requires at + |src| <= |buf|
    ensures |r| == |buf|
    ensures forall i :: 0 <= i < |buf| ==> r[i] == if at <= i < at + |src| then src[i - at] else buf[i]
  {
    buf[..at] + src + buf[at + |src|..]
  }

  /** The buffer after std::move_backward(first, last, dLast): the range
      [first, last) now ends at dLast, every other slot is as it was. */
  function MovedBackward<T>(buf: seq<T>, first: nat, last: nat, dLast: nat): (r: seq<T>)
    requires first <= last <= dLast <= |buf|
    ensures |r| == |buf|
    ensures forall i :: 0 <= i < |buf| ==>
              r[i] == if dLast - (last - first) <= i < dLast then buf[i - (dLast - last)] else buf[i]
  {
    buf[..dLast - (last - first)] + buf[first..last] + buf[dLast..]
  }

  /** The buffer after std::move(first, last, dFirst): the range [first, last)
      now starts at dFirst, every other slot is as it was. */
  function MovedForward<T>(buf: seq<T>, first: nat, last: nat, dFirst: nat): (r: seq<T>)
    requires dFirst <= first <= last <= |buf|
    ensures |r| == |buf|
    ensures forall i :: 0 <= i < |buf| ==>
              r[i] == if dFirst <= i < dFirst + (last - first) then buf[i + (first - dFirst)] else buf[i]
  {
    buf[..dFirst] + buf[first..last] + buf[dFirst + (last - first)..]
  }

  /** std::move_backward as the library runs it: one slot at a time from the
      high end down, in place. The result is the simultaneous shift. */
  method MoveBackward<T>(buf: seq<T>, first: nat, last: nat, dLast: nat) returns (r: seq<T>)
    requires first <= last <= dLast <= |buf|
    ensures r == MovedBackward(buf, first, last, dLast)
  {
    var a := new T[|buf|](i requires 0 <= i < |buf| => buf[i]);
    var k := last;
    var d := dLast;
    while k > first
      invariant a.Length == |buf|
      invariant first <= k <= last
      invariant d == dLast - (last - k)
      invariant forall i :: 0 <= i < d ==> a[i] == buf[i]
      invariant forall i :: d <= i < dLast ==> a[i] == buf[i - (dLast - last)]
      invariant forall i :: dLast <= i < a.Length ==> a[i] == buf[i]
      decreases k
    {
      k := k - 1;
      d := d - 1;
      a[d] := a[k];
    }
    r := a[..];
    assert forall i :: 0 <= i < |buf| ==> r[i] == MovedBackward(buf, first, last, dLast)[i];
  }

  /** std::move as the library runs it: one slot at a time from the low end
      up, in place. The result is the simultaneous shift. */
  method MoveForward<T>(buf: seq<T>, first: nat, last: nat, dFirst: nat) returns (r: seq<T>)
    requires dFirst <= first <= last <= |buf|
    ensures r == MovedForward(buf, first, last, dFirst)
  {
    var a := new T[|buf|](i requires 0 <= i < |buf| => buf[i]);
    var k := first;
    var d := dFirst;
    while k < last
      invariant a.Length == |buf|
      invariant first <= k <= last
      invariant d == dFirst + (k - first)
      invariant forall i :: 0 <= i < dFirst ==> a[i] == buf[i]
      invariant forall i :: dFirst <= i < d ==> a[i] == buf[i + (first - dFirst)]
      invariant forall i :: d <= i < a.Length ==> a[i] == buf[i]
      decreases last - k
    {
      a[d] := a[k];
      k := k + 1;
      d := d + 1;
    }
    r := a[..];
    assert forall i :: 0 <= i < |buf| ==> r[i] == MovedForward(buf, first, last, dFirst)[i];
  }

  /** Opening a gap of width |src| at p in the live prefix [0, s) and filling
      it with src is slice-and-concatenate on the live prefix, and leaves the
      slots past the new end untouched. */
  lemma InsertShape<T>(buf: seq<T>, p: nat, s: nat, src: seq<T>)
    requires p <= s && s + |src| <= |buf|
    ensures Written(MovedBackward(buf, p, s, s + |src|), p, src)[..s + |src|] == buf[..p] + src + buf[p..s]
    ensures Written(MovedBackward(buf, p, s, s + |src|), p, src)[s + |src|..] == buf[s + |src|..]
  {
    var w := |src|;
    var r := Written(MovedBackward(buf, p, s, s + w), p, src);
    var want := buf[..p] + src + buf[p..s];
    assert |r[..s + w]| == |want|;
    forall i | 0 <= i < s + w
      ensures r[..s + w][i] == want[i]
    {
      if i < p {
      } else if i < p + w {
      } else {
        assert want[i] == buf[p..s][i - p - w];
      }
    }
  }

  /** Closing the span [f, l) of the live prefix [0, s) is slice-and-concatenate
      on the live prefix, and leaves the slots from the new end on as they were. */
  lemma EraseShape<T>(buf: seq<T>, f: nat, l: nat, s: nat)
    requires f <= l <= s <= |buf|
    ensures MovedForward(buf, l, s, f)[..s - (l - f)] == buf[..f] + buf[l..s]
    ensures MovedForward(buf, l, s, f)[s - (l - f)..] == buf[s - (l - f)..]
  {
    var r := MovedForward(buf, l, s, f);
    var want := buf[..f] + buf[l..s];
    var n := s - (l - f);
    assert |r[..n]| == |want|;
    forall i | 0 <= i < n
      ensures r[..n][i] == want[i]
    {
      if i >= f {
        assert want[i] == buf[l..s][i - f];
      }
    }
  }
}
