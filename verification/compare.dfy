/** The free comparison operators between containers of possibly different
    capacities. They look only at the live elements: == is std::equal over
    the two live ranges, < and > are std::lexicographical_compare, and <=, >=
    and != are negations. T's operator== is passed as `eq` and T's operator<
    as `less`; neither is assumed to be value identity or a total order
    except where a lemma says so.
 */
module Compare {
  import opened Container

  /** std::equal over two ranges given by four iterators: different lengths
      compare unequal, otherwise elements are compared front to back with
      T's operator==. */
  function RangeEqual<T>(a: seq<T>, b: seq<T>, eq: (T, T) -> bool): (r: bool)
    ensures r <==> |a| == |b| && forall i :: 0 <= i < |a| ==> eq(a[i], b[i])
    decreases |a|
  {
    if |a| != |b| then false
    else if |a| == 0 then true
    else
      var rest := RangeEqual(a[1..], b[1..], eq);
      assert forall i :: 1 <= i < |a| ==> a[1..][i - 1] == a[i] && b[1..][i - 1] == b[i];
      eq(a[0], b[0]) && rest
  }

  /** When T's operator== is value identity, std::equal decides sequence
      equality. */
  lemma RangeEqualIsIdentity<T>(a: seq<T>, b: seq<T>, eq: (T, T) -> bool)
    requires forall x, y :: eq(x, y) <==> x == y
    ensures RangeEqual(a, b, eq) <==> a == b
  {
    if |a| == |b| && forall i :: 0 <= i < |a| ==> eq(a[i], b[i]) {
      assert forall i :: 0 <= i < |a| ==> a[i] == b[i];
    }
  }

  /** std::lexicographical_compare: true at the first position where a's
      element is less, false at the first where b's is, and otherwise true
      exactly when a runs out first. */
  function LexLess<T>(a: seq<T>, b: seq<T>, less: (T, T) -> bool): (r: bool)
    ensures r ==> |b| > 0
    ensures |a| < |b| && a == b[..|a|] ==> r
    decreases |a|
  {
    if |b| == 0 then false
    else if |a| == 0 then true
    else if less(a[0], b[0]) then true
    else if less(b[0], a[0]) then false
    else LexLess(a[1..], b[1..], less)
  }

  /** T's operator< as a strict total order: irreflexive, asymmetric, and any
      two distinct values are ordered. */
  ghost predicate StrictTotalOrder<T(!new)>(less: (T, T) -> bool) {
    && (forall x :: !less(x, x))
    && (forall x, y :: less(x, y) ==> !less(y, x))
    && (forall x, y :: x != y ==> less(x, y) || less(y, x))
  }

  /** a is below b at position k: both agree before k, and at k either a has
      ended while b has not, or a's element is less. */
  ghost predicate DiffersFirstAt<T>(a: seq<T>, b: seq<T>, less: (T, T) -> bool, k: nat) {
    && k <= |a| && k <= |b|
    && a[..k] == b[..k]
    && ((k == |a| && k < |b|) || (k < |a| && k < |b| && less(a[k], b[k])))
  }

  /** The textbook definition of lexicographic order. */
  ghost predicate LexBelow<T>(a: seq<T>, b: seq<T>, less: (T, T) -> bool) {
    exists k: nat :: DiffersFirstAt(a, b, less, k)
  }

  /** Under a strict total order the library's loop decides exactly the
      textbook lexicographic order, in both directions. */
  lemma {:induction false} LexLessIsLexBelow<T(!new)>(a: seq<T>, b: seq<T>, less: (T, T) -> bool)
    requires StrictTotalOrder(less)
    ensures LexLess(a, b, less) <==> LexBelow(a, b, less)
    decreases |a|
  {
    if |b| == 0 {
      forall k: nat
        ensures !DiffersFirstAt(a, b, less, k)
      {
      }
    } else if |a| == 0 {
      assert DiffersFirstAt(a, b, less, 0);
    } else if less(a[0], b[0]) {
      assert DiffersFirstAt(a, b, less, 0);
    } else if less(b[0], a[0]) {
      forall k: nat
        ensures !DiffersFirstAt(a, b, less, k)
      {
        if 0 < k <= |a| && k <= |b| {
          assert a[..k][0] == a[0] && b[..k][0] == b[0];
        }
      }
    } else {
      assert a[0] == b[0];
      LexLessIsLexBelow(a[1..], b[1..], less);
      if LexLess(a, b, less) {
        var k: nat :| DiffersFirstAt(a[1..], b[1..], less, k);
        assert a[..k + 1] == [a[0]] + a[1..][..k];
        assert b[..k + 1] == [b[0]] + b[1..][..k];
        assert DiffersFirstAt(a, b, less, k + 1);
      }
      if LexBelow(a, b, less) {
        var k: nat :| DiffersFirstAt(a, b, less, k);
        assert k != 0;
        assert a[1..][..k - 1] == a[..k][1..];
        assert b[1..][..k - 1] == b[..k][1..];
        assert DiffersFirstAt(a[1..], b[1..], less, k - 1);
      }
    }
  }

  /** operator==: equal live lengths and pairwise equal live elements under
      T's operator==, whatever the two capacities. */
  function Eq<T>(a: StatVec<T>, b: StatVec<T>, eq: (T, T) -> bool): (r: bool)
    requires a.Valid() && b.Valid()
    ensures r <==> a.size == b.size && forall i :: 0 <= i < a.size ==> eq(a.buf[i], b.buf[i])
  {
    var r := RangeEqual(a.Live(), b.Live(), eq);
    assert forall i :: 0 <= i < a.size ==> a.Live()[i] == a.buf[i];
    assert forall i :: 0 <= i < b.size ==> b.Live()[i] == b.buf[i];
    r
  }

  /** operator!=: the negation of ==, so some live length or some live
      element differs under T's operator==. */
  function Ne<T>(a: StatVec<T>, b: StatVec<T>, eq: (T, T) -> bool): (r: bool)
    requires a.Valid() && b.Valid()
    ensures r <==> a.size != b.size || exists i :: 0 <= i < a.size && !eq(a.buf[i], b.buf[i])
  {
    !Eq(a, b, eq)
  }

  /** operator<: lexicographic order of the live elements. */
  function Lt<T>(a: StatVec<T>, b: StatVec<T>, less: (T, T) -> bool): (r: bool)
    requires a.Valid() && b.Valid()
    ensures r ==> b.size > 0
    ensures a.size < b.size && a.Live() == b.Live()[..a.size] ==> r
  {
    LexLess(a.Live(), b.Live(), less)
  }

  /** operator>: the lexicographic compare with the operands swapped. */
  function Gt<T>(a: StatVec<T>, b: StatVec<T>, less: (T, T) -> bool): (r: bool)
    requires a.Valid() && b.Valid()
    ensures r <==> Lt(b, a, less)
  {
    LexLess(b.Live(), a.Live(), less)
  }

  /** operator<=: not >. */
  function Le<T>(a: StatVec<T>, b: StatVec<T>, less: (T, T) -> bool): (r: bool)
    requires a.Valid() && b.Valid()
    ensures r <==> !Lt(b, a, less)
  {
    !Gt(a, b, less)
  }

  /** operator>=: not <. */
  function Ge<T>(a: StatVec<T>, b: StatVec<T>, less: (T, T) -> bool): (r: bool)
    requires a.Valid() && b.Valid()
    ensures r <==> !Lt(a, b, less)
  {
    !Lt(a, b, less)
  }

  /** Under a strict total order, operator< is the textbook lexicographic
      order of the live elements, in both directions. */
  lemma LtIsLexicographic<T(!new)>(a: StatVec<T>, b: StatVec<T>, less: (T, T) -> bool)
    requires a.Valid() && b.Valid() && StrictTotalOrder(less)
    ensures Lt(a, b, less) <==> LexBelow(a.Live(), b.Live(), less)
    ensures Gt(a, b, less) <==> LexBelow(b.Live(), a.Live(), less)
  {
    LexLessIsLexBelow(a.Live(), b.Live(), less);
    LexLessIsLexBelow(b.Live(), a.Live(), less);
  }

  /** The comparisons see only the live elements: two containers with the
      same live elements, whatever their capacities and reserve contents,
      compare alike against any third, and equal to each other when T's
      operator== is reflexive. */
  lemma ComparisonsIgnoreReserve<T>(a: StatVec<T>, a': StatVec<T>, b: StatVec<T>, eq: (T, T) -> bool, less: (T, T) -> bool)
    requires a.Valid() && a'.Valid() && b.Valid() && a.Live() == a'.Live()
    ensures (forall x :: eq(x, x)) ==> Eq(a, a', eq)
    ensures Eq(a, b, eq) == Eq(a', b, eq)
    ensures Lt(a, b, less) == Lt(a', b, less) && Gt(a, b, less) == Gt(a', b, less)
  {
    assert forall i :: 0 <= i < a.size ==> a.buf[i] == a.Live()[i] == a'.Live()[i] == a'.buf[i];
  }

  /** T's operator< never orders both ways. */
  ghost predicate Asymmetric<T(!new)>(less: (T, T) -> bool) {
    forall x, y :: less(x, y) ==> !less(y, x)
  }

  /** T's operator== holds exactly when neither operand is less than the
      other, as for a strict weak order and its equivalence. */
  ghost predicate EqIsIncomparable<T(!new)>(eq: (T, T) -> bool, less: (T, T) -> bool) {
    forall x, y :: eq(x, y) <==> !less(x, y) && !less(y, x)
  }

  /** When == agrees with <, exactly one of <, == and > holds. */
  lemma Trichotomy<T(!new)>(a: StatVec<T>, b: StatVec<T>, eq: (T, T) -> bool, less: (T, T) -> bool)
    requires a.Valid() && b.Valid() && Asymmetric(less) && EqIsIncomparable(eq, less)
    ensures Lt(a, b, less) || Eq(a, b, eq) || Gt(a, b, less)
    ensures !(Lt(a, b, less) && Eq(a, b, eq))
    ensures !(Gt(a, b, less) && Eq(a, b, eq))
    ensures !(Lt(a, b, less) && Gt(a, b, less))
  {
    SeqTrichotomy(a.Live(), b.Live(), eq, less);
    SeqTrichotomy(b.Live(), a.Live(), eq, less);
  }

  /** The same trichotomy for the compare loops on plain sequences. */
  lemma {:induction false} SeqTrichotomy<T(!new)>(a: seq<T>, b: seq<T>, eq: (T, T) -> bool, less: (T, T) -> bool)
    requires Asymmetric(less) && EqIsIncomparable(eq, less)
    ensures LexLess(a, b, less) || RangeEqual(a, b, eq) || LexLess(b, a, less)
    ensures !(LexLess(a, b, less) && RangeEqual(a, b, eq))
    ensures !(LexLess(a, b, less) && LexLess(b, a, less))
    decreases |a|
  {
    if |a| == 0 || |b| == 0 {
    } else if less(a[0], b[0]) || less(b[0], a[0]) {
    } else {
      SeqTrichotomy(a[1..], b[1..], eq, less);
      assert eq(a[0], b[0]);
      assert RangeEqual(a, b, eq) == RangeEqual(a[1..], b[1..], eq);
    }
  }

  /** statvec{xs...}: the deduction guide gives capacity |xs|. */
  function Ints(xs: seq<int>): (v: StatVec<int>)
    requires 1 <= |xs|
    ensures v.Valid() && v.Live() == xs
  {
    FromList(|xs|, xs, 0)
  }

  /** The source's equality test case on ints. */
  lemma EqualityExamples()
    ensures var eq := (x: int, y: int) => x == y;
            && Eq(Ints([1, 2, 3]), Ints([1, 2, 3]), eq)
            && !Eq(Ints([1, 2, 3]), Ints([1, 2]), eq)
            && !Eq(Ints([1, 2, 3]), Ints([1, 2, 3, 4]), eq)
            && !Eq(Ints([1, 2, 3]), Ints([1, 2, 2]), eq)
            && Eq(Ints([1, 2, 3]), FromList(32, [1, 2, 3], 0), eq)
  {
  }

  /** The source's inequality test case on ints. */
  lemma InequalityExamples()
    ensures var eq := (x: int, y: int) => x == y;
            && !Ne(Ints([1, 2, 3]), Ints([1, 2, 3]), eq)
            && Ne(Ints([1, 2, 3]), Ints([1, 2]), eq)
            && Ne(Ints([1, 2, 3]), Ints([1, 2, 3, 4]), eq)
            && Ne(Ints([1, 2, 3]), Ints([1, 2, 2]), eq)
            && !Ne(Ints([1, 2, 3]), FromList(32, [1, 2, 3], 0), eq)
  {
    assert Ints([1, 2, 3]).buf[2] != Ints([1, 2, 2]).buf[2];
  }

  /** The source's <= test case on ints. */
  lemma LeExamples()
    ensures var lt := (x: int, y: int) => x < y;
            && Le(Ints([1, 2, 3]), Ints([1, 2, 3]), lt)
            && Le(Ints([1, 2, 3]), Ints([1, 4]), lt)
            && Le(Ints([1, 2]), Ints([1, 2, 3]), lt)
            && !Le(Ints([1, 2, 3]), Ints([1, 2]), lt)
            && !Le(Ints([1, 4]), Ints([1, 2, 3]), lt)
  {
  }

  /** The source's >= test case on ints. */
  lemma GeExamples()
    ensures var lt := (x: int, y: int) => x < y;
            && Ge(Ints([1, 2, 3]), Ints([1, 2, 3]), lt)
            && !Ge(Ints([1, 2, 3]), Ints([1, 4]), lt)
            && !Ge(Ints([1, 2]), Ints([1, 2, 3]), lt)
            && Ge(Ints([1, 2, 3]), Ints([1, 2]), lt)
            && Ge(Ints([1, 4]), Ints([1, 2, 3]), lt)
  {
  }

  /** The source's < test case on ints. */
  lemma LtExamples()
    ensures var lt := (x: int, y: int) => x < y;
            && !Lt(Ints([1, 2, 3]), Ints([1, 2, 3]), lt)
            && Lt(Ints([1, 2, 3]), Ints([1, 4]), lt)
            && Lt(Ints([1, 2]), Ints([1, 2, 3]), lt)
            && !Lt(Ints([1, 2, 3]), Ints([1, 2]), lt)
            && !Lt(Ints([1, 4]), Ints([1, 2, 3]), lt)
  {
  }

  /** The source's > test case on ints. */
  lemma GtExamples()
    ensures var lt := (x: int, y: int) => x < y;
            && !Gt(Ints([1, 2, 3]), Ints([1, 2, 3]), lt)
            && !Gt(Ints([1, 2, 3]), Ints([1, 4]), lt)
            && !Gt(Ints([1, 2]), Ints([1, 2, 3]), lt)
            && Gt(Ints([1, 2, 3]), Ints([1, 2]), lt)
            && Gt(Ints([1, 4]), Ints([1, 2, 3]), lt)
  {
  }
}
