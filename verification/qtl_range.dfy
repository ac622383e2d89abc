/**
 * QtlRange: a range of 64-bit integer values, kept as a first value (qint64)
 * and a number of values (quint64). Every operation saturates at the bounds
 * of qint64 instead of overflowing.
 */
module QtlRange {

  const RangeMin: int := -0x8000_0000_0000_0000
  const RangeMax: int := 0x7FFF_FFFF_FFFF_FFFF
  const Two64: int := 0x1_0000_0000_0000_0000

  /** Bits of the adjacency flags. */
  const AdjacentBefore: nat := 1
  const AdjacentAfter: nat := 2
  const AdjacentAny: nat := 3

  predicate InInt64(x: int)
  {
    RangeMin <= x <= RangeMax
  }

  /** The value of a range: its first value and its number of values. */
  datatype Span = Span(first: int, count: int)

  /**
   * What every QtlRange satisfies: `first` is a qint64, `count` a quint64, and
   * the range does not reach past RANGE_MAX.
   */
  predicate ValidSpan(s: Span)
  {
    InInt64(s.first) && 0 <= s.count < Two64 && s.first + s.count <= RangeMax + 1
  }

  /** `x` is one of the values of `s`. */
  predicate Contains(s: Span, x: int)
  {
    s.first <= x < s.first + s.count
  }

  /** One past the last value. */
  function End(s: Span): int
  {
    s.first + s.count
  }

  /** The values of `after` are the values of `before` moved by `offset`, kept within qint64. */
  ghost predicate Shifted(before: Span, offset: int, after: Span)
  {
    forall x :: Contains(after, x) <==> InInt64(x) && Contains(before, x - offset)
  }

  /** The values of `c` are exactly the values common to `a` and `b`. */
  ghost predicate Intersection(a: Span, b: Span, c: Span)
  {
    forall x :: Contains(c, x) <==> Contains(a, x) && Contains(b, x)
  }

  /**
   * The last value of the range. An empty range at RANGE_MIN reports
   * RANGE_MIN, since RANGE_MIN - 1 does not exist.
   */
  function Last(s: Span): (r: int)
    requires ValidSpan(s)
    ensures InInt64(r)
    ensures s.count > 0 ==> Contains(s, r) && !Contains(s, r + 1)
    ensures s.count == 0 && s.first > RangeMin ==> r == s.first - 1
    ensures s.count == 0 && s.first == RangeMin ==> r == RangeMin
  {
    if s.count == 0 && s.first == RangeMin then RangeMin else s.first + s.count - 1
  }

  /**
   * overlap() as the source writes it: it compares the distance between the
   * first values with the count of the lower range only, so an empty range
   * lying inside the other one is reported as overlapping.
   */
  function OverlapAsWritten(a: Span, b: Span): bool
    requires ValidSpan(a) && ValidSpan(b)
  {
    if a.first <= b.first then b.first - a.first < a.count else a.first - b.first < b.count
  }

  /** An empty range at 5 "overlaps" the range 5..9 one way and not the other. */
  lemma OverlapAsWrittenEmptyRange()
    ensures var e, r := Span(5, 0), Span(5, 5);
      ValidSpan(e) && ValidSpan(r) && OverlapAsWritten(r, e) && !OverlapAsWritten(e, r)
      && !(exists x :: Contains(e, x))
  {
  }

  /**
   * The two ranges have at least one value in common: the source's test with
   * empty ranges excluded first.
   */
  function Overlap(a: Span, b: Span): (r: bool)
    requires ValidSpan(a) && ValidSpan(b)
    ensures r <==> exists x :: Contains(a, x) && Contains(b, x)
  {
    if a.count == 0 || b.count == 0 then false
    else if a.first <= b.first then
      var ok := b.first - a.first < a.count;
      assert ok ==> Contains(a, b.first) && Contains(b, b.first);
      ok
    else
      var ok := a.first - b.first < b.count;
      assert ok ==> Contains(a, a.first) && Contains(b, a.first);
      ok
  }

  /**
   * The two ranges are exactly adjacent: with AdjacentBefore, `b` starts right
   * after the end of `a`; with AdjacentAfter, `a` starts right after the end
   * of `b`.
   */
  function Adjacent(a: Span, b: Span, flags: nat): (r: bool)
    requires ValidSpan(a) && ValidSpan(b)
    ensures r <==> (flags % 2 == 1 && b.first == End(a)) || ((flags / 2) % 2 == 1 && a.first == End(b))
  {
    var before := flags % 2 == 1;
    var after := (flags / 2) % 2 == 1;
    if a.first == b.first then
      (a.count == 0 && before) || (b.count == 0 && after)
    else if a.first < b.first then
      before && b.first - a.first == a.count
    else
      after && a.first - b.first == b.count
  }

  lemma AdjacentBeforeMeansStartsAtEnd(a: Span, b: Span)
    requires ValidSpan(a) && ValidSpan(b)
    ensures Adjacent(a, b, AdjacentBefore) <==> b.first == a.first + a.count
    ensures Adjacent(a, b, AdjacentAny) <==> Adjacent(a, b, AdjacentBefore) || Adjacent(b, a, AdjacentBefore)
  {
  }

  lemma OverlapSymmetric(a: Span, b: Span)
    requires ValidSpan(a) && ValidSpan(b)
    ensures Overlap(a, b) == Overlap(b, a)
  {
    if Overlap(a, b) {
      var x :| Contains(a, x) && Contains(b, x);
      assert Contains(b, x) && Contains(a, x);
    }
    if Overlap(b, a) {
      var x :| Contains(b, x) && Contains(a, x);
      assert Contains(a, x) && Contains(b, x);
    }
  }

  /** Two adjacent ranges never overlap. */
  lemma AdjacentNotOverlap(a: Span, b: Span)
    requires ValidSpan(a) && ValidSpan(b)
    requires Adjacent(a, b, AdjacentAny)
    ensures !Overlap(a, b)
  {
  }

  /** scale() as the source writes its two overflow tests. */
  function ScaleAsWritten(s: Span, factor: int): (r: Span)
    requires ValidSpan(s) && InInt64(factor)
  {
    if s.first < 0 || factor <= 0 then Span(0, 0)
    else if s.first > (RangeMax - factor + 1) / factor then Span(RangeMax, 0)
    else
      var first := s.first * factor;
      var maxCount := RangeMax - first + 1;
      if s.count > (maxCount - factor + 1) / factor then Span(first, RangeMax - first + 1)
      else Span(first, s.count * factor)
  }

  /**
   * With first = (2^63 - 2) / 3 and one value, scaling by 3 should give the
   * values RANGE_MAX - 1 and RANGE_MAX; the source reports a complete overflow
   * and returns an empty range.
   */
  lemma ScaleAsWrittenDropsValues()
    ensures var s := Span(3074457345618258602, 1);
      ValidSpan(s) && ScaleAsWritten(s, 3) == Span(RangeMax, 0)
      && s.first * 3 == RangeMax - 1
  {
  }

  /**
   * With first = 0 and (2^63 - 3) / 5 values, scaling by 5 should end at
   * RANGE_MAX - 3; the source stretches the range up to RANGE_MAX.
   */
  lemma ScaleAsWrittenStretches()
    ensures var s := Span(0, 1844674407370955161);
      ValidSpan(s) && End(s) * 5 == RangeMax - 2
      && End(ScaleAsWritten(s, 5)) == RangeMax + 1
  {
  }

  /** clip() as the source writes it, using last() for both ranges. */
  function ClipAsWritten(s: Span, limit: Span): (r: Span)
    requires ValidSpan(s) && ValidSpan(limit)
  {
    var rangeLast := Last(limit);
    if s.first > rangeLast then Span(rangeLast + 1, 0)
    else
      var thisLast := Last(s);
      var first := if s.first < limit.first then limit.first else s.first;
      var last := if thisLast < rangeLast then thisLast else rangeLast;
      Span(first, if first > last then 0 else last - first + 1)
  }

  /** Clipping the empty range at RANGE_MIN by the empty range at RANGE_MIN gives one value. */
  lemma ClipAsWrittenCreatesValue()
    ensures var e := Span(RangeMin, 0);
      ValidSpan(e) && ClipAsWritten(e, e) == Span(RangeMin, 1)
      && Contains(ClipAsWritten(e, e), RangeMin) && !Contains(e, RangeMin)
  {
  }

  /** x exceeds m / f exactly when x * f exceeds m. */
  lemma DivBound(x: int, m: int, f: int)
    requires f > 0 && m >= 0 && x >= 0
    ensures x > m / f <==> x * f > m
  {
    var q := m / f;
    assert m == q * f + m % f;
    if x > q {
      MulMonotonic(q + 1, x, f);
    } else {
      MulMonotonic(x, q, f);
    }
  }

  lemma MulMonotonic(a: int, b: int, f: int)
    requires a <= b && f >= 0
    ensures a * f <= b * f
  {
    assert b * f - a * f == (b - a) * f;
  }

  /**
   * The range from `first` to `last` (the QtlRange(first, last) constructor):
   * empty when last < first; the 64-bit unsigned count wraps to 0 for the
   * single range that holds all 2^64 values.
   */
  function SpanOfBounds(first: int, last: int): (r: Span)
    requires InInt64(first) && InInt64(last)
    ensures ValidSpan(r) && r.first == first
    ensures last < first ==> r.count == 0
    ensures first <= last && last - first + 1 < Two64 ==> r.count > 0 && Last(r) == last
    ensures forall x :: Contains(r, x) ==> first <= x <= last
  {
    Span(first, if first > last then 0 else (last - first + 1) % Two64)
  }

  /** A QtlRange object. */
  class Range {
    var first: int
    var count: int

    function Value(): Span
      reads this
    {
      Span(first, count)
    }

    predicate Valid()
      reads this
    {
      ValidSpan(Value())
    }

    /** The default range: first value 0, no value. */
    constructor ()
      ensures Valid() && Value() == Span(0, 0)
    {
      first := 0;
      count := 0;
    }

    /** QtlRange(first, last): from `first` to `last`, empty when last < first. */
    constructor FromBounds(first': int, last: int)
      requires InInt64(first') && InInt64(last)
      ensures Valid() && Value() == SpanOfBounds(first', last)
    {
      var s := SpanOfBounds(first', last);
      first := s.first;
      count := s.count;
    }

    /** setFirst: move the first value and keep the end of the range where it was. */
    method SetFirst(f: int)
      requires Valid() && InInt64(f)
      modifies this
      ensures Valid() && first == f
      ensures f <= old(End(Value())) && old(End(Value())) - f < Two64 ==> End(Value()) == old(End(Value()))
      ensures f > old(End(Value())) ==> count == 0
      ensures old(End(Value())) - f == Two64 ==> count == 0
    {
      if f != first {
        if f < first {
          count := (count + (first - f)) % Two64;
        } else {
          var less := f - first;
          count := if count < less then 0 else count - less;
        }
        first := f;
      }
    }

    /** setLast: keep the first value, make `l` the last one (empty when l < first). */
    method SetLast(l: int)
      requires Valid() && InInt64(l)
      modifies this
      ensures Valid() && first == old(first)
      ensures l < first ==> count == 0
      ensures first <= l && l - first + 1 < Two64 ==> count == l - first + 1 && Last(Value()) == l
    {
      count := if first > l then 0 else (l - first + 1) % Two64;
    }

    /** add: move every value by `offset`; values leaving qint64 are dropped. */
    method Add(offset: int)
      requires Valid() && InInt64(offset)
      modifies this
      ensures Valid()
      ensures Shifted(old(Value()), offset, Value())
      ensures offset > 0 && old(first) > RangeMax - offset ==> Value() == Span(RangeMax, 0)
      ensures offset <= 0 && count == 0 && old(first) + offset < RangeMin ==> first == RangeMin
      ensures old(count) == 0 && InInt64(old(first) + offset) ==> Value() == Span(old(first) + offset, 0)
    {
      if offset > 0 {
        if RangeMax - offset < first {
          first, count := RangeMax, 0;
        } else if (first != RangeMin || count != 0) && RangeMax - offset < first + count - 1 {
          first := first + offset;
          count := RangeMax - first + 1;
        } else {
          first := first + offset;
        }
      } else {
        if (first == RangeMin && count == 0) || ((first != RangeMin || count != 0) && RangeMin - offset > first + count - 1) {
          first, count := RangeMin, 0;
        } else if RangeMin - offset > first {
          count := count - (RangeMin - offset - first);
          first := RangeMin;
        } else {
          first := first + offset;
        }
      }
    }

    /**
     * scale: the new first value is first * factor and the new end is
     * end * factor, bounded by RANGE_MAX; a negative first value or a
     * non-positive factor gives the empty range at 0. The overflow tests are
     * the exact ones (see ScaleAsWritten for the tests the source uses).
     */
    method Scale(factor: int)
      requires Valid() && InInt64(factor)
      modifies this
      ensures Valid()
      ensures old(first) < 0 || factor <= 0 ==> Value() == Span(0, 0)
      ensures old(first) >= 0 && factor > 0 && old(first) * factor > RangeMax ==> Value() == Span(RangeMax, 0)
      ensures old(first) >= 0 && factor > 0 && old(first) * factor <= RangeMax ==>
        first == old(first) * factor &&
        End(Value()) == (if old(End(Value())) * factor <= RangeMax + 1 then old(End(Value())) * factor else RangeMax + 1)
    {
      if first < 0 || factor <= 0 {
        first, count := 0, 0;
      } else if first > RangeMax / factor {
        DivBound(first, RangeMax, factor);
        first, count := RangeMax, 0;
      } else {
        DivBound(first, RangeMax, factor);
        ghost var end := (first + count) * factor;
        assert end == first * factor + count * factor;
        first := first * factor;
        var maxCount := RangeMax - first + 1;
        DivBound(count, maxCount, factor);
        if count > maxCount / factor {
          count := maxCount;
        } else {
          count := count * factor;
        }
      }
    }

    /**
     * merge: the smallest first value and the largest end. When that hull
     * holds 2^64 values, more than a quint64 count holds, the count wraps and
     * the range with the smaller first value is kept. The callers always
     * merge two distinct ranges, which `other != this` records.
     */
    method Merge(other: Range)
      requires Valid() && other.Valid() && other != this
      modifies this
      ensures Valid()
      ensures first == (if old(first) <= other.first then old(first) else other.first)
      ensures var hi := if old(End(Value())) >= End(other.Value()) then old(End(Value())) else End(other.Value());
        hi - first < Two64 ==> End(Value()) == hi
      ensures var hi := if old(End(Value())) >= End(other.Value()) then old(End(Value())) else End(other.Value());
        hi - first == Two64 ==> Value() == (if old(first) <= other.first then old(Value()) else other.Value())
    {
      if first <= other.first {
        var c := (other.first - first + other.count) % Two64;
        count := if count >= c then count else c;
      } else {
        var c := (first - other.first + count) % Two64;
        count := if other.count >= c then other.count else c;
        first := other.first;
      }
    }

    /**
     * clip: keep only the values that are also in `limit`. A range lying
     * wholly above the limit becomes the empty range right after the limit's
     * last value; otherwise the result starts at the larger of the two first
     * values, even when it is empty.
     */
    method Clip(limit: Range)
      requires Valid() && limit.Valid()
      modifies this
      ensures Valid()
      ensures Intersection(old(Value()), old(limit.Value()), Value())
      ensures old(first) > End(old(limit.Value())) - 1 ==> Value() == Span(End(old(limit.Value())), 0)
      ensures old(first) <= End(old(limit.Value())) - 1 ==>
        first == (if old(first) < old(limit.first) then old(limit.first) else old(first))
    {
      // The true last values: one below first for an empty range.
      var rangeLast := limit.first + limit.count - 1;
      if first > rangeLast {
        first, count := rangeLast + 1, 0;
      } else {
        var thisLast := first + count - 1;
        if first < limit.first {
          first := limit.first;
        }
        var last := if thisLast < rangeLast then thisLast else rangeLast;
        count := if first > last then 0 else last - first + 1;
      }
    }
  }
}
