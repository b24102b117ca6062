/** Day 15, "Beacon Exclusion Zone": sensors on a grid, each with the
    closest beacon it detects. A sensor rules out every point at least as
    close to it, in Manhattan distance, as its beacon; on each row those
    points form one interval per sensor, and the intervals are merged. */
module Day15Beacons {
  import opened Text

  const I64Min: int := -0x8000_0000_0000_0000
  const I64Max: int := 0x7FFF_FFFF_FFFF_FFFF

  /** (x, y). */
  type Point = (int, int)

  function Min(a: int, b: int): int { if a <= b then a else b }
  function Max(a: int, b: int): int { if a <= b then b else a }

  // --------------------------------------------------------------- distance

  /** `manhattan_distance`. */
  function Manhattan(a: Point, b: Point): (d: nat)
    ensures d == 0 <==> a == b
  {
    Abs(a.0 - b.0) + Abs(a.1 - b.1)
  }

  lemma ManhattanSymmetric(a: Point, b: Point)
    ensures Manhattan(a, b) == Manhattan(b, a)
  { }

  lemma ManhattanTriangle(a: Point, b: Point, c: Point)
    ensures Manhattan(a, c) <= Manhattan(a, b) + Manhattan(b, c)
  { }

  /** The distances checked for `manhattan_distance` in the tests. */
  lemma ManhattanExamples()
    ensures Manhattan((23, 12), (23, 12)) == 0
    ensures Manhattan((1, 1), (2, 2)) == 2
    ensures Manhattan((1, 2), (2, 2)) == 1
    ensures Manhattan((-1, -1), (2, 2)) == 6
  { }

  // ------------------------------------------------------------------ grid

  /** `Grid`: each sensor with its closest beacon, and the bounding box of
      the origin and every sensor's diamond. */
  datatype Grid = Grid(sensors: map<Point, Point>, topLeft: Point, bottomRight: Point)

  /** `HashMap::from_iter`: a later pair for the same sensor replaces an
      earlier one. */
  function MapOf(pairs: seq<(Point, Point)>): (m: map<Point, Point>)
    ensures forall i | 0 <= i < |pairs| :: pairs[i].0 in m
    ensures forall s | s in m :: exists i | 0 <= i < |pairs| :: pairs[i] == (s, m[s])
    decreases |pairs|
  {
    if pairs == [] then map[]
    else
      var last := pairs[|pairs| - 1];
      var m := MapOf(pairs[..|pairs| - 1]);
      assert forall i | 0 <= i < |pairs| - 1 :: pairs[..|pairs| - 1][i] == pairs[i];
      m[last.0 := last.1]
  }

  /** The last pair for a sensor is the one kept. */
  lemma {:induction false} MapOfLast(pairs: seq<(Point, Point)>, i: nat)
    requires i < |pairs|
    requires forall j | i < j < |pairs| :: pairs[j].0 != pairs[i].0
    ensures MapOf(pairs)[pairs[i].0] == pairs[i].1
    decreases |pairs|
  {
    if i < |pairs| - 1 {
      var front := pairs[..|pairs| - 1];
      assert front[i] == pairs[i];
      MapOfLast(front, i);
    }
  }

  /** The reach of the pair: its sensor's distance to its beacon. */
  function Reach(pair: (Point, Point)): nat {
    Manhattan(pair.0, pair.1)
  }

  function Coord(p: Point, axis: bool): int {
    if axis then p.1 else p.0
  }

  /** The low edge of the box on one axis (`min_x` or `min_y`), widened
      pair by pair from 0. */
  function Lowest(pairs: seq<(Point, Point)>, axis: bool): int
    decreases |pairs|
  {
    if pairs == [] then 0
    else
      var last := pairs[|pairs| - 1];
      Min(Min(Lowest(pairs[..|pairs| - 1], axis), Coord(last.0, axis) + Reach(last)), Coord(last.0, axis) - Reach(last))
  }

  /** The high edge of the box on one axis (`max_x` or `max_y`). */
  function Highest(pairs: seq<(Point, Point)>, axis: bool): int
    decreases |pairs|
  {
    if pairs == [] then 0
    else
      var last := pairs[|pairs| - 1];
      Max(Max(Highest(pairs[..|pairs| - 1], axis), Coord(last.0, axis) + Reach(last)), Coord(last.0, axis) - Reach(last))
  }

  /** The low edge is the least of 0 and every sensor's coordinate minus
      its reach. */
  lemma {:induction false} LowestIsLeast(pairs: seq<(Point, Point)>, axis: bool)
    ensures Lowest(pairs, axis) <= 0
    ensures forall i | 0 <= i < |pairs| :: Lowest(pairs, axis) <= Coord(pairs[i].0, axis) - Reach(pairs[i])
    ensures Lowest(pairs, axis) == 0
            || exists i | 0 <= i < |pairs| :: Lowest(pairs, axis) == Coord(pairs[i].0, axis) - Reach(pairs[i])
    decreases |pairs|
  {
    if pairs != [] {
      var front := pairs[..|pairs| - 1];
      LowestIsLeast(front, axis);
      assert forall i | 0 <= i < |front| :: front[i] == pairs[i];
    }
  }

  /** The high edge is the greatest of 0 and every sensor's coordinate plus
      its reach. */
  lemma {:induction false} HighestIsGreatest(pairs: seq<(Point, Point)>, axis: bool)
    ensures Highest(pairs, axis) >= 0
    ensures forall i | 0 <= i < |pairs| :: Coord(pairs[i].0, axis) + Reach(pairs[i]) <= Highest(pairs, axis)
    ensures Highest(pairs, axis) == 0
            || exists i | 0 <= i < |pairs| :: Highest(pairs, axis) == Coord(pairs[i].0, axis) + Reach(pairs[i])
    decreases |pairs|
  {
    if pairs != [] {
      var front := pairs[..|pairs| - 1];
      HighestIsGreatest(front, axis);
      assert forall i | 0 <= i < |front| :: front[i] == pairs[i];
    }
  }

  /** `Grid::new`: the loop widens the box sensor by sensor. */
  method NewGrid(pairs: seq<(Point, Point)>) returns (g: Grid)
    ensures g.sensors == MapOf(pairs)
    ensures g.topLeft == (Lowest(pairs, false), Lowest(pairs, true))
    ensures g.bottomRight == (Highest(pairs, false), Highest(pairs, true))
  {
    var minX, maxX, minY, maxY := 0, 0, 0, 0;
    for i := 0 to |pairs|
      invariant minX == Lowest(pairs[..i], false) && maxX == Highest(pairs[..i], false)
      invariant minY == Lowest(pairs[..i], true) && maxY == Highest(pairs[..i], true)
    {
      var (sensor, beacon) := pairs[i];
      var distance := Manhattan(sensor, beacon);
      minX := Min(Min(minX, sensor.0 + distance), sensor.0 - distance);
      maxX := Max(Max(maxX, sensor.0 + distance), sensor.0 - distance);
      minY := Min(Min(minY, sensor.1 + distance), sensor.1 - distance);
      maxY := Max(Max(maxY, sensor.1 + distance), sensor.1 - distance);
      BoxStep(pairs, i, false);
      BoxStep(pairs, i, true);
    }
    assert pairs[..|pairs|] == pairs;
    g := Grid(MapOf(pairs), (minX, minY), (maxX, maxY));
  }

  lemma BoxStep(pairs: seq<(Point, Point)>, i: nat, axis: bool)
    requires i < |pairs|
    ensures var c, d := Coord(pairs[i].0, axis), Reach(pairs[i]);
            Lowest(pairs[..i + 1], axis) == Min(Min(Lowest(pairs[..i], axis), c + d), c - d)
            && Highest(pairs[..i + 1], axis) == Max(Max(Highest(pairs[..i], axis), c + d), c - d)
  {
    assert pairs[..i + 1][..i] == pairs[..i];
  }

  /** Every row a sensor's diamond touches lies inside the box. */
  predicate RowsInBox(g: Grid) {
    forall s | s in g.sensors ::
      g.topLeft.1 <= s.1 - Manhattan(s, g.sensors[s]) && s.1 + Manhattan(s, g.sensors[s]) <= g.bottomRight.1
  }

  /** The box of `Grid::new` holds every diamond, so the row lookups of
      `detected_ranges` always succeed. */
  lemma NewGridRowsInBox(pairs: seq<(Point, Point)>, g: Grid)
    requires g == Grid(MapOf(pairs), (Lowest(pairs, false), Lowest(pairs, true)),
                       (Highest(pairs, false), Highest(pairs, true)))
    ensures RowsInBox(g)
    ensures g.topLeft.0 <= 0 <= g.bottomRight.0 && g.topLeft.1 <= 0 <= g.bottomRight.1
  {
    LowestIsLeast(pairs, false);
    LowestIsLeast(pairs, true);
    HighestIsGreatest(pairs, false);
    HighestIsGreatest(pairs, true);
    forall s | s in g.sensors
      ensures g.topLeft.1 <= s.1 - Manhattan(s, g.sensors[s]) && s.1 + Manhattan(s, g.sensors[s]) <= g.bottomRight.1
    {
      var i :| 0 <= i < |pairs| && pairs[i] == (s, g.sensors[s]);
      assert Reach(pairs[i]) == Manhattan(s, g.sensors[s]);
    }
  }

  // ----------------------------------------------------------- detection

  /** `is_in_sensor_range`: some sensor, whose own position and beacon are
      not `p`, is at least as close to `p` as to its beacon. */
  predicate InSensorRange(sensors: map<Point, Point>, p: Point) {
    exists s | s in sensors :: p != sensors[s] && p != s && Manhattan(s, p) <= Manhattan(s, sensors[s])
  }

  /** The sensors of the `is_in_sensor_range` test. */
  function ExampleSensors(): map<Point, Point> {
    map[(0, 0) := (0, 1), (10, 10) := (5, 5)]
  }

  /** The points the test finds in range. */
  lemma InSensorRangeExamples()
    ensures InSensorRange(ExampleSensors(), (7, 6))
    ensures InSensorRange(ExampleSensors(), (5, 6))
  {
    var sensors := ExampleSensors();
    assert (10, 10) in sensors && sensors[(10, 10)] == (5, 5);
    assert Manhattan((10, 10), (7, 6)) <= Manhattan((10, 10), (5, 5));
    assert Manhattan((10, 10), (5, 6)) <= Manhattan((10, 10), (5, 5));
  }

  /** The points the test finds out of range: one too far from both
      sensors, and the first sensor and its beacon themselves. */
  lemma OutOfSensorRangeExamples()
    ensures !InSensorRange(ExampleSensors(), (4, 4))
    ensures !InSensorRange(ExampleSensors(), (0, 0))
    ensures !InSensorRange(ExampleSensors(), (0, 1))
  {
    var sensors := ExampleSensors();
    assert sensors.Keys == {(0, 0), (10, 10)};
    assert sensors[(0, 0)] == (0, 1) && sensors[(10, 10)] == (5, 5);
  }

  /** Within the sensor's reach, at `dy` rows from it. */
  predicate Detects(s: Point, reach: nat, p: Point) {
    Manhattan(s, p) <= reach
  }

  /** Some sensor is at least as close to `p` as to its beacon. */
  predicate Detected(sensors: map<Point, Point>, p: Point) {
    exists s | s in sensors :: Detects(s, Manhattan(s, sensors[s]), p)
  }

  /** A detected point that is no sensor and no beacon is in sensor range,
      and the other way round. */
  lemma DetectedInRange(sensors: map<Point, Point>, p: Point)
    requires p !in sensors && forall s | s in sensors :: sensors[s] != p
    ensures Detected(sensors, p) <==> InSensorRange(sensors, p)
  { }

  // ---------------------------------------------------------------- ranges

  /** `RangeInclusive<i64>`: the columns from `start` to `end`. */
  datatype Range = Range(start: int, end: int)

  predicate InRange(r: Range, x: int) {
    r.start <= x <= r.end
  }

  /** Some range of `rs` holds column `x`. */
  predicate Covers(rs: seq<Range>, x: int) {
    exists i | 0 <= i < |rs| :: InRange(rs[i], x)
  }

  lemma CoversAppend(a: seq<Range>, b: seq<Range>, x: int)
    ensures Covers(a + b, x) <==> Covers(a, x) || Covers(b, x)
  {
    if Covers(b, x) {
      var i :| 0 <= i < |b| && InRange(b[i], x);
      assert (a + b)[|a| + i] == b[i];
    }
    if Covers(a, x) {
      var i :| 0 <= i < |a| && InRange(a[i], x);
      assert (a + b)[i] == a[i];
    }
  }

  /** Reordering ranges does not change what they cover. */
  lemma CoversPermutation(a: seq<Range>, b: seq<Range>, x: int)
    requires multiset(a) == multiset(b)
    ensures Covers(a, x) <==> Covers(b, x)
  {
    if Covers(a, x) {
      var i :| 0 <= i < |a| && InRange(a[i], x);
      assert a[i] in multiset(b);
    }
    if Covers(b, x) {
      var i :| 0 <= i < |b| && InRange(b[i], x);
      assert b[i] in multiset(a);
    }
  }

  /** The range a sensor contributes to row `sensor.y + dy` when `|dy|` is
      at most its reach: `offset` is `reach - |dy|`, and the range holds
      exactly the columns of that row within reach. */
  function RowRange(s: Point, reach: nat, dy: int): (r: Range)
    requires -(reach as int) <= dy <= reach
    ensures forall x :: InRange(r, x) <==> Detects(s, reach, (x, s.1 + dy))
  {
    var offset := Abs(Abs(dy) - reach);
    Range(s.0 - offset, s.0 + offset)
  }

  /** What a sensor adds to row `y`: one range, or nothing when the row is
      out of its reach. */
  function SensorRow(s: Point, reach: nat, y: int): (rs: seq<Range>)
    ensures forall x :: Covers(rs, x) <==> Detects(s, reach, (x, y))
  {
    if -(reach as int) <= y - s.1 <= reach then
      var r := RowRange(s, reach, y - s.1);
      assert forall x :: Covers([r], x) <==> InRange(r, x) by {
        forall x ensures Covers([r], x) <==> InRange(r, x) {
          if InRange(r, x) {
            assert InRange([r][0], x);
          }
        }
      }
      [r]
    else
      assert forall x :: !Detects(s, reach, (x, y));
      []
  }

  /** The unmerged ranges of row `y` after the sensors of `order`. */
  function RawRow(sensors: map<Point, Point>, order: seq<Point>, y: int): seq<Range>
    requires forall i | 0 <= i < |order| :: order[i] in sensors
    decreases |order|
  {
    if order == [] then []
    else
      var s := order[|order| - 1];
      RawRow(sensors, order[..|order| - 1], y) + SensorRow(s, Manhattan(s, sensors[s]), y)
  }

  lemma RawRowStep(sensors: map<Point, Point>, order: seq<Point>, i: nat, y: int)
    requires forall j | 0 <= j < |order| :: order[j] in sensors
    requires i < |order|
    ensures RawRow(sensors, order[..i + 1], y)
            == RawRow(sensors, order[..i], y) + SensorRow(order[i], Manhattan(order[i], sensors[order[i]]), y)
  {
    assert order[..i + 1][..i] == order[..i];
  }

  /** The raw ranges of a row cover the columns some listed sensor
      detects. */
  lemma {:induction false} RawRowCovers(sensors: map<Point, Point>, order: seq<Point>, y: int, x: int)
    requires forall i | 0 <= i < |order| :: order[i] in sensors
    ensures Covers(RawRow(sensors, order, y), x)
            <==> exists i | 0 <= i < |order| :: Detects(order[i], Manhattan(order[i], sensors[order[i]]), (x, y))
    decreases |order|
  {
    if order != [] {
      var front := order[..|order| - 1];
      var s := order[|order| - 1];
      RawRowCovers(sensors, front, y, x);
      CoversAppend(RawRow(sensors, front, y), SensorRow(s, Manhattan(s, sensors[s]), y), x);
      assert forall i | 0 <= i < |front| :: front[i] == order[i];
    }
  }

  predicate SortedByStart(rs: seq<Range>) {
    forall i, j | 0 <= i < j < |rs| :: rs[i].start <= rs[j].start
  }

  /** Inserts `r` before the first range that starts later, as a stable
      sort does. */
  function InsertByStart(r: Range, rs: seq<Range>): (t: seq<Range>)
    ensures multiset(t) == multiset(rs) + multiset{r}
  {
    if rs == [] then [r]
    else if r.start <= rs[0].start then [r] + rs
    else
      assert rs == [rs[0]] + rs[1..];
      [rs[0]] + InsertByStart(r, rs[1..])
  }

  lemma {:induction false} InsertSorted(r: Range, rs: seq<Range>)
    requires SortedByStart(rs)
    ensures SortedByStart(InsertByStart(r, rs))
    decreases |rs|
  {
    if rs != [] && r.start > rs[0].start {
      var t := InsertByStart(r, rs[1..]);
      InsertSorted(r, rs[1..]);
      forall k | 0 <= k < |t| ensures rs[0].start <= t[k].start {
        assert t[k] in multiset(t);
        assert t[k] in multiset(rs[1..]) || t[k] == r;
        if t[k] != r {
          var j :| 0 <= j < |rs[1..]| && rs[1..][j] == t[k];
          assert rs[1 + j] == t[k];
        }
      }
    }
  }

  /** `sort_by_key(start)`: a permutation sorted by start. */
  function SortByStart(rs: seq<Range>): (t: seq<Range>)
    ensures multiset(t) == multiset(rs)
  {
    if rs == [] then []
    else
      assert rs == [rs[0]] + rs[1..];
      InsertByStart(rs[0], SortByStart(rs[1..]))
  }

  lemma {:induction false} SortSorted(rs: seq<Range>)
    ensures SortedByStart(SortByStart(rs))
  {
    if rs != [] {
      SortSorted(rs[1..]);
      InsertSorted(rs[0], SortByStart(rs[1..]));
    }
  }

  /** How consecutive ranges are joined: the loop in the source joins them
      when they overlap; the corrected rule also joins ranges that touch,
      such as 0..=3 and 4..=7. */
  datatype Rule = AsWritten | Corrected

  predicate Joins(rule: Rule, current: Range, next: Range) {
    match rule
    case AsWritten => current.end >= next.start
    case Corrected => current.end + 1 >= next.start
  }

  /** One step of the merge loop: pop the last range, then push it joined
      with `next`, or push both back. */
  function MergeInto(rule: Rule, stack: seq<Range>, next: Range): (t: seq<Range>)
    requires stack != []
    ensures t != [] && |t| <= |stack| + 1
  {
    var current := stack[|stack| - 1];
    var rest := stack[..|stack| - 1];
    if Joins(rule, current, next) then rest + [Range(Min(current.start, next.start), Max(current.end, next.end))]
    else rest + [current] + [next]
  }

  /** The merged ranges of a row sorted by start. */
  function Merge(rule: Rule, ranges: seq<Range>): (m: seq<Range>)
    ensures |m| <= |ranges| && (m == [] <==> ranges == [])
    decreases |ranges|
  {
    if |ranges| <= 1 then ranges
    else MergeInto(rule, Merge(rule, ranges[..|ranges| - 1]), ranges[|ranges| - 1])
  }

  /** Consecutive merged ranges start in order and are not joined. */
  predicate Separated(rule: Rule, m: seq<Range>) {
    forall i, j | 0 <= i < j < |m| :: m[i].start <= m[j].start && !Joins(rule, m[i], m[j])
  }

  lemma MergeStep(rule: Rule, ranges: seq<Range>, i: nat)
    requires 1 <= i < |ranges|
    ensures Merge(rule, ranges[..i + 1]) == MergeInto(rule, Merge(rule, ranges[..i]), ranges[i])
  {
    var prefix := ranges[..i + 1];
    assert prefix[..i] == ranges[..i] && prefix[i] == ranges[i];
  }

  /** Merging sorted ranges leaves them sorted by start and pairwise
      apart, with the last one starting no later than the last input. */
  lemma {:induction false} MergeSeparated(rule: Rule, ranges: seq<Range>)
    requires SortedByStart(ranges) && ranges != []
    ensures Separated(rule, Merge(rule, ranges))
    ensures var m := Merge(rule, ranges); m[|m| - 1].start <= ranges[|ranges| - 1].start
    decreases |ranges|
  {
    if |ranges| > 1 {
      var front := ranges[..|ranges| - 1];
      MergeSeparated(rule, front);
      var stack := Merge(rule, front);
      var next := ranges[|ranges| - 1];
      assert front[|front| - 1].start <= next.start;
      SeparatedAfterStep(rule, stack, next);
    }
  }

  lemma SeparatedAfterStep(rule: Rule, stack: seq<Range>, next: Range)
    requires stack != [] && Separated(rule, stack) && stack[|stack| - 1].start <= next.start
    ensures Separated(rule, MergeInto(rule, stack, next))
    ensures var t := MergeInto(rule, stack, next); t[|t| - 1].start <= next.start
  {
    var current := stack[|stack| - 1];
    var rest := stack[..|stack| - 1];
    var t := MergeInto(rule, stack, next);
    assert forall k | 0 <= k < |rest| :: rest[k] == stack[k];
    if Joins(rule, current, next) {
      assert t == rest + [Range(current.start, Max(current.end, next.end))];
      forall i, j | 0 <= i < j < |t| ensures t[i].start <= t[j].start && !Joins(rule, t[i], t[j]) {
        if j == |t| - 1 {
          assert t[i] == stack[i];
          assert !Joins(rule, stack[i], current);
        }
      }
    } else {
      forall i, j | 0 <= i < j < |t| ensures t[i].start <= t[j].start && !Joins(rule, t[i], t[j]) {
        if j == |t| - 1 && i < |t| - 2 {
          assert t[i] == stack[i];
          assert !Joins(rule, stack[i], current);
        }
      }
    }
  }

  /** Merging sorted ranges covers the same columns. */
  lemma {:induction false} MergeCovers(rule: Rule, ranges: seq<Range>, x: int)
    requires SortedByStart(ranges)
    ensures Covers(Merge(rule, ranges), x) <==> Covers(ranges, x)
    decreases |ranges|
  {
    if |ranges| > 1 {
      var front := ranges[..|ranges| - 1];
      SortedFront(ranges);
      MergeCovers(rule, front, x);
      MergeSeparated(rule, front);
      MergeCoversStep(rule, Merge(rule, front), ranges, x);
    }
  }

  lemma SortedFront(ranges: seq<Range>)
    requires SortedByStart(ranges) && |ranges| > 1
    ensures SortedByStart(ranges[..|ranges| - 1])
    ensures ranges[|ranges| - 2].start <= ranges[|ranges| - 1].start
  {
  }

  lemma MergeCoversStep(rule: Rule, stack: seq<Range>, ranges: seq<Range>, x: int)
    requires |ranges| > 1 && stack != [] && stack[|stack| - 1].start <= ranges[|ranges| - 1].start
    requires Covers(stack, x) <==> Covers(ranges[..|ranges| - 1], x)
    ensures Covers(MergeInto(rule, stack, ranges[|ranges| - 1]), x) <==> Covers(ranges, x)
  {
    var next := ranges[|ranges| - 1];
    CoversAfterStep(rule, stack, next, x);
    assert ranges == ranges[..|ranges| - 1] + [next];
    CoversAppend(ranges[..|ranges| - 1], [next], x);
    CoversSingle(next, x);
  }

  lemma CoversAfterStep(rule: Rule, stack: seq<Range>, next: Range, x: int)
    requires stack != [] && stack[|stack| - 1].start <= next.start
    ensures Covers(MergeInto(rule, stack, next), x) <==> Covers(stack, x) || InRange(next, x)
  {
    var current := stack[|stack| - 1];
    var rest := stack[..|stack| - 1];
    assert stack == rest + [current];
    CoversAppend(rest, [current], x);
    CoversSingle(current, x);
    CoversSingle(next, x);
    if Joins(rule, current, next) {
      var joined := Range(Min(current.start, next.start), Max(current.end, next.end));
      CoversAppend(rest, [joined], x);
      CoversSingle(joined, x);
    } else {
      CoversAppend(rest + [current], [next], x);
    }
  }

  lemma CoversSingle(r: Range, x: int)
    ensures Covers([r], x) <==> InRange(r, x)
  {
    if InRange(r, x) {
      assert InRange([r][0], x);
    }
  }

  /** Every range holds at least one column. */
  predicate NonEmpty(rs: seq<Range>) {
    forall i | 0 <= i < |rs| :: rs[i].start <= rs[i].end
  }

  lemma {:induction false} MergeNonEmpty(rule: Rule, ranges: seq<Range>)
    requires NonEmpty(ranges)
    ensures NonEmpty(Merge(rule, ranges))
    decreases |ranges|
  {
    if |ranges| > 1 {
      var front := ranges[..|ranges| - 1];
      MergeNonEmpty(rule, front);
      var stack := Merge(rule, front);
      var t := Merge(rule, ranges);
      forall i | 0 <= i < |t| ensures t[i].start <= t[i].end {
        if i < |stack| - 1 {
          assert t[i] == stack[i];
        }
      }
    }
  }

  /** An undetected column lies between two detected ones. */
  ghost predicate Gap(rs: seq<Range>) {
    exists a, x, b | a < x < b :: Covers(rs, a) && !Covers(rs, x) && Covers(rs, b)
  }

  /** With the corrected rule, a merged row holds more than one range exactly
      when the row has a gap: what the search for the distress beacon
      relies on. */
  lemma CorrectedGap(ranges: seq<Range>)
    requires SortedByStart(ranges) && NonEmpty(ranges)
    ensures |Merge(Corrected, ranges)| > 1 <==> Gap(ranges)
  {
    if |Merge(Corrected, ranges)| > 1 {
      ApartLeavesGap(ranges);
    } else if ranges != [] {
      OneRangeNoGap(ranges);
    }
  }

  lemma ApartLeavesGap(ranges: seq<Range>)
    requires SortedByStart(ranges) && NonEmpty(ranges)
    requires |Merge(Corrected, ranges)| > 1
    ensures Gap(ranges)
  {
    var m := Merge(Corrected, ranges);
    MergeNonEmpty(Corrected, ranges);
    MergeSeparated(Corrected, ranges);
    var a, x, b := m[0].start, m[0].end + 1, m[1].start;
    assert InRange(m[0], a) && InRange(m[1], b);
    MergeCovers(Corrected, ranges, a);
    MergeCovers(Corrected, ranges, x);
    MergeCovers(Corrected, ranges, b);
    assert !Covers(m, x) by {
      forall j | 0 <= j < |m| ensures !InRange(m[j], x) {
        if j > 0 {
          assert !Joins(Corrected, m[0], m[j]);
        }
      }
    }
    assert Covers(ranges, a) && !Covers(ranges, x) && Covers(ranges, b);
  }

  lemma OneRangeNoGap(ranges: seq<Range>)
    requires SortedByStart(ranges) && ranges != []
    requires |Merge(Corrected, ranges)| <= 1
    ensures !Gap(ranges)
  {
    var m := Merge(Corrected, ranges);
    forall a, x, b | a < x < b && Covers(ranges, a) && Covers(ranges, b) ensures Covers(ranges, x) {
      MergeCovers(Corrected, ranges, a);
      MergeCovers(Corrected, ranges, x);
      MergeCovers(Corrected, ranges, b);
      assert InRange(m[0], x);
    }
  }

  /** The merge as written keeps 0..=3 and 4..=7 apart though together they
      leave no gap, so a row can hold two ranges while every column between
      them is detected. */
  lemma TouchingRangesKeptApart()
    ensures Merge(AsWritten, [Range(0, 3), Range(4, 7)]) == [Range(0, 3), Range(4, 7)]
    ensures !Gap([Range(0, 3), Range(4, 7)])
  {
    var rs := [Range(0, 3), Range(4, 7)];
    assert rs[..1] == [Range(0, 3)];
    forall x | 0 <= x <= 7 ensures Covers(rs, x) {
      if x <= 3 {
        assert InRange(rs[0], x);
      } else {
        assert InRange(rs[1], x);
      }
    }
    forall a, x, b | a < x < b && Covers(rs, a) && Covers(rs, b) ensures Covers(rs, x) {
      assert 0 <= x <= 7;
    }
  }

  /** The same ranges become one under the corrected rule. */
  lemma TouchingRangesJoined()
    ensures Merge(Corrected, [Range(0, 3), Range(4, 7)]) == [Range(0, 7)]
  {
    assert [Range(0, 3), Range(4, 7)][..1] == [Range(0, 3)];
  }

  /** Merge loop of `detected_ranges` on one row's sorted ranges. */
  method MergeRow(ranges: seq<Range>, rule: Rule) returns (merged: seq<Range>)
    ensures merged == Merge(rule, ranges)
  {
    if ranges == [] {
      return [];
    }
    merged := ranges[..1];
    for i := 1 to |ranges|
      invariant merged == Merge(rule, ranges[..i])
    {
      ghost var stack := merged;
      var next := ranges[i];
      var current := merged[|merged| - 1];
      merged := merged[..|merged| - 1];
      if Joins(rule, current, next) {
        merged := merged + [Range(Min(current.start, next.start), Max(current.end, next.end))];
      } else {
        merged := merged + [current];
        merged := merged + [next];
      }
      assert merged == MergeInto(rule, stack, next);
      MergeStep(rule, ranges, i);
    }
    assert ranges[..|ranges|] == ranges;
  }

  /** The row map `detected_ranges` starts from: an empty list for every
      row of the box. */
  method InitRows(lo: int, hi: int) returns (rows: map<int, seq<Range>>)
    ensures forall y :: y in rows <==> lo <= y <= hi
    ensures forall y | y in rows :: rows[y] == []
  {
    rows := map[];
    var y := lo;
    while y <= hi
      invariant lo <= y && (y <= hi + 1 || y == lo)
      invariant forall y' :: y' in rows <==> lo <= y' < y
      invariant forall y' | y' in rows :: rows[y'] == []
      decreases hi - y
    {
      rows := rows[y := []];
      y := y + 1;
    }
  }

  /** The inner loop of `detected_ranges`: one range for every row within
      the sensor's reach. */
  method AddSensor(rows: map<int, seq<Range>>, s: Point, reach: nat) returns (rows': map<int, seq<Range>>)
    requires forall y | s.1 - reach <= y <= s.1 + reach :: y in rows
    ensures rows'.Keys == rows.Keys
    ensures forall y | y in rows :: rows'[y] == rows[y] + SensorRow(s, reach, y)
  {
    rows' := rows;
    for dy := -(reach as int) to reach + 1
      invariant rows'.Keys == rows.Keys
      invariant forall y | y in rows :: rows'[y] == rows[y] + (if y - s.1 < dy then SensorRow(s, reach, y) else [])
    {
      var y := s.1 + dy;
      var offset := Abs(Abs(dy) - reach);
      rows' := rows'[y := rows'[y] + [Range(s.0 - offset, s.0 + offset)]];
    }
  }

  /** The first phase of `detected_ranges`: every sensor's ranges, row by
      row, taking the sensors in the order `order`. */
  method CollectRows(g: Grid, order: seq<Point>) returns (rows: map<int, seq<Range>>)
    requires forall i | 0 <= i < |order| :: order[i] in g.sensors
    requires RowsInBox(g)
    ensures forall y :: y in rows <==> g.topLeft.1 <= y <= g.bottomRight.1
    ensures forall y | y in rows :: rows[y] == RawRow(g.sensors, order, y)
  {
    var lo, hi := g.topLeft.1, g.bottomRight.1;
    rows := InitRows(lo, hi);
    for i := 0 to |order|
      invariant forall y :: y in rows <==> lo <= y <= hi
      invariant forall y | y in rows :: rows[y] == RawRow(g.sensors, order[..i], y)
    {
      var sensor := order[i];
      var beacon := g.sensors[sensor];
      var rows' := AddSensor(rows, sensor, Manhattan(sensor, beacon));
      forall y | y in rows'
        ensures rows'[y] == RawRow(g.sensors, order[..i + 1], y)
      {
        RawRowStep(g.sensors, order, i, y);
      }
      rows := rows';
    }
    assert order[..|order|] == order;
  }

  /** The second phase of `detected_ranges`: each row sorted by start and
      merged on its own, so the order in which rows are visited does not
      matter. */
  method MergeRows(rows: map<int, seq<Range>>, lo: int, hi: int, rule: Rule) returns (merged: map<int, seq<Range>>)
    requires forall y :: y in rows <==> lo <= y <= hi
    ensures forall y :: y in merged <==> lo <= y <= hi
    ensures forall y | y in merged :: merged[y] == Merge(rule, SortByStart(rows[y]))
  {
    merged := map[];
    var y := lo;
    while y <= hi
      invariant lo <= y && (y <= hi + 1 || y == lo)
      invariant forall y' :: y' in merged <==> lo <= y' < y
      invariant forall y' | y' in merged :: merged[y'] == Merge(rule, SortByStart(rows[y']))
      decreases hi - y
    {
      var m := MergeRow(SortByStart(rows[y]), rule);
      merged := merged[y := m];
      y := y + 1;
    }
  }

  /** `detected_ranges`: the merged ranges of every row of the box. The
      source takes the sensors in the map's iteration order; `order` lists
      the keys of the map in that order. */
  method DetectedRanges(g: Grid, order: seq<Point>, rule: Rule) returns (merged: map<int, seq<Range>>)
    requires forall i | 0 <= i < |order| :: order[i] in g.sensors
    requires forall s | s in g.sensors :: s in order
    requires RowsInBox(g)
    ensures forall y :: y in merged <==> g.topLeft.1 <= y <= g.bottomRight.1
    ensures forall y | y in merged :: merged[y] == Merge(rule, SortByStart(RawRow(g.sensors, order, y)))
  {
    var rows := CollectRows(g, order);
    merged := MergeRows(rows, g.topLeft.1, g.bottomRight.1, rule);
  }

  /** What a merged row of `detected_ranges` means: its ranges are sorted
      and apart, and they cover exactly the columns of the row some sensor
      detects. */
  lemma MergedRowMeaning(sensors: map<Point, Point>, order: seq<Point>, rule: Rule, y: int, x: int)
    requires forall i | 0 <= i < |order| :: order[i] in sensors
    requires forall s | s in sensors :: s in order
    ensures var m := Merge(rule, SortByStart(RawRow(sensors, order, y)));
            Separated(rule, m) && (Covers(m, x) <==> Detected(sensors, (x, y)))
  {
    var raw := RawRow(sensors, order, y);
    var sorted := SortByStart(raw);
    SortSorted(raw);
    if sorted != [] {
      MergeSeparated(rule, sorted);
    }
    MergeCovers(rule, sorted, x);
    CoversPermutation(sorted, raw, x);
    RawRowCovers(sensors, order, y, x);
    if Detected(sensors, (x, y)) {
      var s :| s in sensors && Detects(s, Manhattan(s, sensors[s]), (x, y));
      var i :| 0 <= i < |order| && order[i] == s;
    }
  }

  // ---------------------------------------------------------------- parsing

  /** `parse_coordinates`: the numbers after the '=' on either side of the
      first ','. */
  function ParseCoordinates(s: string): (r: Option<Point>)
    ensures r.Some? ==> I64Min <= r.value.0 <= I64Max && I64Min <= r.value.1 <= I64Max
  {
    match SplitOnce(s, ",")
    case None => None
    case Some((xs, ys)) =>
      match SplitOnce(xs, "=")
      case None => None
      case Some((_, xv)) =>
        match ParseInt(Trim(xv), I64Min, I64Max)
        case None => None
        case Some(x) =>
          match SplitOnce(ys, "=")
          case None => None
          case Some((_, yv)) =>
            match ParseInt(Trim(yv), I64Min, I64Max)
            case None => None
            case Some(y) => Some((x, y))
  }

  /** `parse_sensor_and_beacon`: the coordinates on either side of the
      first ':'. */
  function ParseSensor(line: string): (r: Option<(Point, Point)>)
    ensures r.Some? ==> SplitOnce(line, ":").Some?
    ensures r.Some? ==> ParseCoordinates(SplitOnce(line, ":").value.0) == Some(r.value.0)
    ensures r.Some? ==> ParseCoordinates(SplitOnce(line, ":").value.1) == Some(r.value.1)
  {
    match SplitOnce(line, ":")
    case None => None
    case Some((sensor, beacon)) =>
      match ParseCoordinates(sensor)
      case None => None
      case Some(s) =>
        match ParseCoordinates(beacon)
        case None => None
        case Some(b) => Some((s, b))
  }

  /** How a point is written in the input. */
  function CoordText(p: Point): string {
    "x=" + IntToString(p.0) + ", y=" + IntToString(p.1)
  }

  /** How a sensor line is written in the input. */
  function SensorText(pair: (Point, Point)): string {
    ("Sensor at " + CoordText(pair.0)) + [':'] + (" closest beacon is at " + CoordText(pair.1))
  }

  predicate InI64(p: Point) {
    I64Min <= p.0 <= I64Max && I64Min <= p.1 <= I64Max
  }

  /** Only digits and '-' make up a rendered integer; it starts with no
      whitespace and ends in a digit. */
  lemma RenderedInt(v: int)
    ensures forall k | 0 <= k < |IntToString(v)| :: IsDigit(IntToString(v)[k]) || IntToString(v)[k] == '-'
    ensures !IsWhitespace(IntToString(v)[0]) && IsDigit(IntToString(v)[|IntToString(v)| - 1])
  {
    IntToStringChars(v);
    var n := NatToString(if v < 0 then -v else v);
    if v < 0 {
      assert IntToString(v) == "-" + n;
      assert IntToString(v)[|IntToString(v)| - 1] == n[|n| - 1];
    }
  }

  /** A rendered integer trims to itself, whatever whitespace follows. */
  lemma TrimNumber(v: int, post: string)
    requires forall k | 0 <= k < |post| :: IsWhitespace(post[k])
    ensures Trim(IntToString(v) + post) == IntToString(v)
  {
    RenderedInt(v);
    assert "" + IntToString(v) + post == IntToString(v) + post;
    TrimOfPadded("", IntToString(v), post);
  }

  /** The characters the fixed words of a sensor line lack. */
  lemma WordFacts()
    ensures ',' !in "Sensor at " && '=' !in "Sensor at " && ':' !in "Sensor at "
    ensures ',' !in " closest beacon is at " && '=' !in " closest beacon is at "
    ensures ',' !in "x" && '=' !in "x" && ':' !in "x" && '=' !in " y" && ':' !in " y" && ':' !in ", "
  { }

  /** `pre + "x=" + X` never holds a ',' when `pre` does not. */
  lemma XPartFacts(pre: string, x: int)
    requires ',' !in pre && '=' !in pre
    ensures ',' !in pre + "x=" + IntToString(x)
    ensures SplitOnce(pre + "x=" + IntToString(x), "=") == Some((pre + "x", IntToString(x)))
  {
    WordFacts();
    RenderedInt(x);
    var xs := pre + "x=" + IntToString(x);
    forall k | 0 <= k < |xs| ensures xs[k] != ',' {
      if k >= |pre| + 2 {
        assert xs[k] == IntToString(x)[k - |pre| - 2];
      }
    }
    assert '=' !in pre + "x";
    assert xs == (pre + "x") + ['='] + IntToString(x);
    SplitOnceAtChar(pre + "x", '=', IntToString(x));
  }

  /** Writing a point after `pre` and before trailing whitespace, and
      parsing it back, gives the point. */
  lemma ParseCoordText(s: string, pre: string, p: Point, post: string)
    requires InI64(p)
    requires ',' !in pre && '=' !in pre
    requires forall k | 0 <= k < |post| :: IsWhitespace(post[k])
    requires s == pre + CoordText(p) + post
    ensures ParseCoordinates(s) == Some(p)
  {
    var xs := pre + "x=" + IntToString(p.0);
    var ys := " y=" + IntToString(p.1) + post;
    assert s == xs + [','] + ys;
    XPartFacts(pre, p.0);
    SplitOnceAtChar(xs, ',', ys);
    YPartFacts(p.1, post);
    XValue(p.0);
    ParseCoordinatesOf(s, xs, ys, pre + "x", IntToString(p.0), " y", IntToString(p.1) + post, p);
  }

  lemma XValue(x: int)
    requires I64Min <= x <= I64Max
    ensures ParseInt(Trim(IntToString(x)), I64Min, I64Max) == Some(x)
  {
    TrimNumber(x, "");
    assert IntToString(x) + "" == IntToString(x);
    ParseIntToString(x, I64Min, I64Max);
  }

  lemma YPartFacts(y: int, post: string)
    requires I64Min <= y <= I64Max
    requires forall k | 0 <= k < |post| :: IsWhitespace(post[k])
    ensures SplitOnce(" y=" + IntToString(y) + post, "=") == Some((" y", IntToString(y) + post))
    ensures ParseInt(Trim(IntToString(y) + post), I64Min, I64Max) == Some(y)
  {
    WordFacts();
    assert " y=" + IntToString(y) + post == " y" + ['='] + (IntToString(y) + post);
    SplitOnceAtChar(" y", '=', IntToString(y) + post);
    TrimNumber(y, post);
    ParseIntToString(y, I64Min, I64Max);
  }

  /** `parse_coordinates` succeeds when each of its steps does. */
  lemma ParseCoordinatesOf(s: string, xs: string, ys: string, xa: string, xv: string, ya: string, yv: string, p: Point)
    requires SplitOnce(s, ",") == Some((xs, ys))
    requires SplitOnce(xs, "=") == Some((xa, xv)) && ParseInt(Trim(xv), I64Min, I64Max) == Some(p.0)
    requires SplitOnce(ys, "=") == Some((ya, yv)) && ParseInt(Trim(yv), I64Min, I64Max) == Some(p.1)
    ensures ParseCoordinates(s) == Some(p)
  { }

  /** A written sensor line parses back. */
  lemma ParseSensorText(pair: (Point, Point))
    requires InI64(pair.0) && InI64(pair.1)
    ensures ParseSensor(SensorText(pair)) == Some(pair)
  {
    var front := "Sensor at " + CoordText(pair.0);
    var back := " closest beacon is at " + CoordText(pair.1);
    SensorHalf(pair.0);
    BeaconHalf(pair.1);
    SplitOnceAtChar(front, ':', back);
    ParseSensorOf(SensorText(pair), front, back, pair);
  }

  lemma SensorHalf(p: Point)
    requires InI64(p)
    ensures ':' !in "Sensor at " + CoordText(p)
    ensures ParseCoordinates("Sensor at " + CoordText(p)) == Some(p)
  {
    WordFacts();
    CoordTextNoColon(p);
    ParseCoordText("Sensor at " + CoordText(p), "Sensor at ", p, "");
  }

  lemma BeaconHalf(p: Point)
    requires InI64(p)
    ensures ParseCoordinates(" closest beacon is at " + CoordText(p)) == Some(p)
  {
    WordFacts();
    ParseCoordText(" closest beacon is at " + CoordText(p), " closest beacon is at ", p, "");
  }

  /** `parse_sensor_and_beacon` succeeds when each of its steps does. */
  lemma ParseSensorOf(line: string, front: string, back: string, pair: (Point, Point))
    requires SplitOnce(line, ":") == Some((front, back))
    requires ParseCoordinates(front) == Some(pair.0) && ParseCoordinates(back) == Some(pair.1)
    ensures ParseSensor(line) == Some(pair)
  { }

  lemma CoordTextNoColon(p: Point)
    ensures ':' !in CoordText(p)
  {
    RenderedInt(p.0);
    RenderedInt(p.1);
    var t := CoordText(p);
    var x, y := IntToString(p.0), IntToString(p.1);
    forall k | 0 <= k < |t| ensures t[k] != ':' {
      if 2 <= k < 2 + |x| {
        assert t[k] == x[k - 2];
      } else if k >= 6 + |x| {
        assert t[k] == y[k - 6 - |x|];
      }
    }
  }
}
