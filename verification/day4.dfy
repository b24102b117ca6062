/** Day 4, "Camp Cleanup": each line pairs two elves' section assignments,
    written "a-b,c-d". A pair is counted when one assignment contains the
    other; the second part counts overlapping assignments instead. */
module Day4Sections {
  import opened Text

  const U32Max: nat := 0xFFFF_FFFF

  /** A `Range<u32>` as the code builds it: `start..end` with both bounds
      taken as written. The comparisons below treat `end` as the last
      section of the assignment, so the sections an assignment covers are
      `start..=end`. */
  datatype Assignment = Assignment(start: nat, end: nat)

  /** A section the assignment covers, ends included. */
  predicate Covers(a: Assignment, section: int) {
    a.start <= section <= a.end
  }

  /** The assignment as the puzzle input writes it. */
  function Format(a: Assignment): string {
    NatToString(a.start) + "-" + NatToString(a.end)
  }

  /** `parse_into_range`: split at the first '-' and parse both halves as
      `u32`; a missing '-' or a bad number panics, given here as `None`. */
  function ParseIntoRange(input: string): (r: Option<Assignment>)
    ensures r.Some? ==> r.value.start <= U32Max && r.value.end <= U32Max
    ensures r.Some? ==> exists left, right ::
              input == left + "-" + right &&
              ParseNat(left, U32Max) == Some(r.value.start) && ParseNat(right, U32Max) == Some(r.value.end)
    ensures '-' !in input ==> r.None?
  {
    match SplitOnce(input, "-")
    case None => None
    case Some((left, right)) =>
      match (ParseNat(left, U32Max), ParseNat(right, U32Max))
      case (Some(start), Some(end)) => Some(Assignment(start, end))
      case _ => None
  }

  /** Formatting an assignment of `u32` bounds and parsing it back gives the
      same assignment. */
  lemma ParseFormat(a: Assignment)
    requires a.start <= U32Max && a.end <= U32Max
    ensures ParseIntoRange(Format(a)) == Some(a)
  {
    var left := NatToString(a.start);
    assert '-' !in left by {
      forall i | 0 <= i < |left| ensures left[i] != '-' {
        assert IsDigit(left[i]);
      }
    }
    SplitOnceAtChar(left, '-', NatToString(a.end));
    ParseNatToString(a.start, U32Max);
    ParseNatToString(a.end, U32Max);
  }

  /** `is_contained`: `inner` lies inside `outer`. */
  predicate IsContained(outer: Assignment, inner: Assignment) {
    inner.start >= outer.start && inner.end <= outer.end
  }

  /** For a non-empty inner assignment, containment is inclusion of the
      covered sections, both ways. */
  lemma ContainedIffCovered(outer: Assignment, inner: Assignment)
    requires inner.start <= inner.end
    ensures IsContained(outer, inner) <==> forall s :: Covers(inner, s) ==> Covers(outer, s)
  {
    if forall s :: Covers(inner, s) ==> Covers(outer, s) {
      assert Covers(inner, inner.start) && Covers(inner, inner.end);
    }
  }

  lemma ContainedReflexive(a: Assignment)
    ensures IsContained(a, a)
  { }

  lemma ContainedTransitive(a: Assignment, b: Assignment, c: Assignment)
    requires IsContained(a, b) && IsContained(b, c)
    ensures IsContained(a, c)
  { }

  /** Two assignments that contain each other are equal. */
  lemma ContainedAntisymmetric(a: Assignment, b: Assignment)
    requires IsContained(a, b) && IsContained(b, a)
    ensures a == b
  { }

  /** `_is_overlapping`: order the two by start (ties keep `right` first)
      and check that the earlier one reaches the later one's start. */
  predicate IsOverlapping(left: Assignment, right: Assignment) {
    var (first, second) := if left.start < right.start then (left, right) else (right, left);
    first.end >= second.start
  }

  /** For non-empty assignments, overlapping means sharing a section, both
      ways. */
  lemma OverlapIffShared(left: Assignment, right: Assignment)
    requires left.start <= left.end && right.start <= right.end
    ensures IsOverlapping(left, right) <==> exists s :: Covers(left, s) && Covers(right, s)
  {
    if IsOverlapping(left, right) {
      var s := if left.start < right.start then right.start else left.start;
      assert Covers(left, s) && Covers(right, s);
    }
  }

  lemma {:induction false} OverlapSymmetric(left: Assignment, right: Assignment)
    requires left.start <= left.end && right.start <= right.end
    ensures IsOverlapping(left, right) == IsOverlapping(right, left)
  {
    OverlapIffShared(left, right);
    OverlapIffShared(right, left);
  }

  /** Assignments that meet at one section overlap, whichever comes first. */
  lemma TouchingOverlap(left: Assignment, right: Assignment)
    requires left.start <= left.end && right.start <= right.end
    requires left.end == right.start || right.end == left.start
    ensures IsOverlapping(left, right)
  {
    OverlapIffShared(left, right);
    if left.end == right.start {
      assert Covers(left, left.end) && Covers(right, left.end);
    } else {
      assert Covers(left, right.end) && Covers(right, right.end);
    }
  }

  /** For non-empty assignments, containment either way implies overlap. */
  lemma ContainedOverlaps(outer: Assignment, inner: Assignment)
    requires outer.start <= outer.end && inner.start <= inner.end
    requires IsContained(outer, inner) || IsContained(inner, outer)
    ensures IsOverlapping(outer, inner)
  {
    OverlapIffShared(outer, inner);
    if IsContained(outer, inner) {
      assert Covers(outer, inner.start) && Covers(inner, inner.start);
    } else {
      assert Covers(outer, outer.start) && Covers(inner, outer.start);
    }
  }

  predicate EitherContains(a: Assignment, b: Assignment) {
    IsContained(a, b) || IsContained(b, a)
  }

  /** The test of one line of the first part: split at the first ',' and
      count the pair when either assignment contains the other; `None`
      where the code panics. */
  function PairCounts(line: string): (r: Option<bool>)
    ensures ',' !in line ==> r.None?
    ensures r.Some? ==> exists left, right ::
              line == left + "," + right && ParseIntoRange(left).Some? && ParseIntoRange(right).Some? &&
              r.value == EitherContains(ParseIntoRange(left).value, ParseIntoRange(right).value)
  {
    match SplitOnce(line, ",")
    case None => None
    case Some((left, right)) =>
      match (ParseIntoRange(left), ParseIntoRange(right))
      case (Some(l), Some(rr)) => Some(EitherContains(l, rr))
      case _ => None
  }

  /** A pair written out is counted exactly when one assignment contains the
      other. */
  lemma PairCountsFormatted(l: Assignment, r: Assignment)
    requires l.start <= U32Max && l.end <= U32Max && r.start <= U32Max && r.end <= U32Max
    ensures PairCounts(Format(l) + "," + Format(r)) == Some(EitherContains(l, r))
  {
    var left := Format(l);
    assert ',' !in left by {
      forall i | 0 <= i < |left| ensures left[i] != ',' {
        var a := NatToString(l.start);
        var b := NatToString(l.end);
        if i < |a| { assert left[i] == a[i] && IsDigit(a[i]); }
        else if i > |a| { assert left[i] == b[i - |a| - 1] && IsDigit(b[i - |a| - 1]); }
      }
    }
    SplitOnceAtChar(left, ',', Format(r));
    ParseFormat(l);
    ParseFormat(r);
  }
}
