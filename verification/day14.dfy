/** Day 14, "Regolith Reservoir": sand pours from a source into a cave of
    rock paths above an endless floor. Each unit falls down, down-left or
    down-right, in that order of preference, until all three cells are
    blocked; pouring stops once a unit comes to rest at the source. Points
    are (x, y) with y growing downwards. */
module Day14Sand {
  import opened Text

  const UsizeMax: nat := 0xFFFF_FFFF_FFFF_FFFF

  type Point = (nat, nat)

  function Min(a: nat, b: nat): nat { if a <= b then a else b }
  function Max(a: nat, b: nat): nat { if a <= b then b else a }

  // -------------------------------------------------------------- the world

  /** `World::at_point`: the stored cell, else rock on the floor row, air
      above it and nothing below it. */
  function AtPoint(points: map<Point, char>, floorY: nat, p: Point): Option<char> {
    if p in points then Some(points[p])
    else if p.1 == floorY then Some('#')
    else if p.1 < floorY then Some('.')
    else None
  }

  /** Rock or sand: a cell the sand cannot enter. */
  predicate Solid(c: Option<char>) {
    c == Some('#') || c == Some('o')
  }

  predicate Free(points: map<Point, char>, floorY: nat, p: Point) {
    AtPoint(points, floorY, p) == Some('.')
  }

  predicate Blocked(points: map<Point, char>, floorY: nat, p: Point) {
    Solid(AtPoint(points, floorY, p))
  }

  /** A world between two pours: every stored cell lies above the floor and
      holds rock, air or resting sand. */
  predicate Valid(points: map<Point, char>, floorY: nat) {
    forall p | p in points :: p.1 < floorY && points[p] in "#.o"
  }

  /** In a valid world every cell down to the floor is either air or
      blocked, and nothing lies below the floor. */
  lemma CellKinds(points: map<Point, char>, floorY: nat, p: Point)
    requires Valid(points, floorY)
    ensures AtPoint(points, floorY, p).Some? <==> p.1 <= floorY
    ensures p.1 <= floorY ==> Free(points, floorY, p) != Blocked(points, floorY, p)
  {
  }

  /** The world of the unit test: one rock at (500, 0) and the floor at 10. */
  lemma AtPointExample()
    ensures var points := map[(500, 0) := '#'];
      AtPoint(points, 10, (500, 0)) == Some('#') &&
      AtPoint(points, 10, (500, 1)) == Some('.') &&
      AtPoint(points, 10, (499, 9)) == Some('.') &&
      AtPoint(points, 10, (501, 9)) == Some('.') &&
      AtPoint(points, 10, (500, 10)) == Some('#') &&
      AtPoint(points, 10, (499, 10)) == Some('#') &&
      AtPoint(points, 10, (501, 10)) == Some('#') &&
      AtPoint(points, 10, (500, 11)) == None
  {
  }

  // ------------------------------------------------------------ one unit

  /** A cell sand can be at: above the floor and far enough right that the
      unsigned `x - 1` of the down-left neighbour cannot underflow on the way
      down to the floor. */
  predicate Source(floorY: nat, p: Point) {
    p.1 < floorY && p.0 + p.1 >= floorY
  }

  function Below(p: Point): Point { (p.0, p.1 + 1) }
  function BelowLeft(p: Point): Point requires p.0 >= 1 { (p.0 - 1, p.1 + 1) }
  function BelowRight(p: Point): Point { (p.0 + 1, p.1 + 1) }

  /** Where a unit of sand at `p` goes next: down, else down-left, else
      down-right, whichever is air first; None when it comes to rest. */
  function Step(points: map<Point, char>, floorY: nat, p: Point): (r: Option<Point>)
    requires p.0 >= 1
    ensures r.Some? ==> Free(points, floorY, r.value)
    ensures r.None? <==>
      !Free(points, floorY, Below(p)) && !Free(points, floorY, BelowLeft(p)) && !Free(points, floorY, BelowRight(p))
  {
    if Free(points, floorY, Below(p)) then Some(Below(p))
    else if Free(points, floorY, BelowLeft(p)) then Some(BelowLeft(p))
    else if Free(points, floorY, BelowRight(p)) then Some(BelowRight(p))
    else None
  }

  /** The cells a unit poured at `p` passes through, from `p` to the cell
      where it comes to rest. */
  function Path(points: map<Point, char>, floorY: nat, p: Point): (path: seq<Point>)
    requires Valid(points, floorY) && Source(floorY, p)
    ensures path != [] && path[0] == p
    decreases floorY - p.1
  {
    match Step(points, floorY, p)
    case None => [p]
    case Some(q) => [p] + Path(points, floorY, q)
  }

  /** The path goes one row down per step, each step is the preferred move
      into air, and it ends on a cell whose three lower neighbours are
      blocked, above the floor. */
  lemma {:induction false} PathFacts(points: map<Point, char>, floorY: nat, p: Point)
    requires Valid(points, floorY) && Source(floorY, p)
    ensures var path := Path(points, floorY, p);
      (forall i | 0 <= i < |path| :: Source(floorY, path[i]) && path[i].1 == p.1 + i && path[i].0 <= p.0 + i) &&
      (forall i | 1 <= i < |path| :: Free(points, floorY, path[i])) &&
      (forall i | 0 <= i < |path| - 1 :: Step(points, floorY, path[i]) == Some(path[i + 1])) &&
      Step(points, floorY, path[|path| - 1]).None?
    decreases floorY - p.1
  {
    var path := Path(points, floorY, p);
    match Step(points, floorY, p)
    case None =>
    case Some(q) =>
      PathFacts(points, floorY, q);
      var tail := Path(points, floorY, q);
      assert path == [p] + tail;
      forall i | 1 <= i < |path|
        ensures path[i] == tail[i - 1]
      {
      }
  }

  /** `points` with air written over every cell of `cells`. */
  function Dots(points: map<Point, char>, cells: seq<Point>): (r: map<Point, char>)
    ensures forall q | q in cells :: q in r && r[q] == '.'
    ensures forall q | q !in cells :: (q in r <==> q in points) && (q in points ==> r[q] == points[q])
  {
    if cells == [] then points
    else Dots(points, cells[..|cells| - 1])[cells[|cells| - 1] := '.']
  }

  lemma DotsSnoc(points: map<Point, char>, cells: seq<Point>, c: Point)
    ensures Dots(points, cells + [c]) == Dots(points, cells)[c := '.']
  {
    assert (cells + [c])[..|cells|] == cells;
  }

  /** The world after a unit has followed `path`: air along the way and
      sand where it rests. */
  function Poured(points: map<Point, char>, path: seq<Point>): map<Point, char>
    requires path != []
  {
    Dots(points, path[..|path| - 1])[path[|path| - 1] := 'o']
  }

  /** What a cell holds after a unit has followed `path`. */
  lemma PouredAt(points: map<Point, char>, path: seq<Point>, q: Point)
    requires path != []
    ensures var after := Poured(points, path);
      if q == path[|path| - 1] then q in after && after[q] == 'o'
      else if q in path then q in after && after[q] == '.'
      else (q in after <==> q in points) && (q in points ==> after[q] == points[q])
  {
    var n := |path|;
    if q in path && q != path[n - 1] {
      var i :| 0 <= i < n && path[i] == q;
      assert path[..n - 1][i] == q;
    }
  }

  /** Where a unit from `start` rests: above the floor and within reach,
      on a cell that now holds sand and whose three lower neighbours are
      blocked; unless it rests at the source, that cell was air. */
  lemma PourRests(points: map<Point, char>, floorY: nat, start: Point)
    requires Valid(points, floorY) && Source(floorY, start)
    ensures var path := Path(points, floorY, start);
      var rest: Point := path[|path| - 1];
      var after := Poured(points, path);
      Source(floorY, rest) && rest.0 <= start.0 + floorY &&
      rest in after && after[rest] == 'o' &&
      Blocked(after, floorY, Below(rest)) && Blocked(after, floorY, BelowLeft(rest)) &&
      Blocked(after, floorY, BelowRight(rest)) &&
      (rest != start ==> Free(points, floorY, rest))
  {
    var path := Path(points, floorY, start);
    PathFacts(points, floorY, start);
    var rest := path[|path| - 1];
    assert Below(rest) !in path && BelowLeft(rest) !in path && BelowRight(rest) !in path;
    PouredAt(points, path, rest);
    PouredAt(points, path, Below(rest));
    PouredAt(points, path, BelowLeft(rest));
    PouredAt(points, path, BelowRight(rest));
    CellKinds(points, floorY, Below(rest));
    CellKinds(points, floorY, BelowLeft(rest));
    CellKinds(points, floorY, BelowRight(rest));
  }

  /** A unit turns only the cell where it rests from air into sand, and
      leaves the source as air when it moves away from it. */
  lemma FreeAfterPour(points: map<Point, char>, floorY: nat, start: Point, q: Point)
    requires Valid(points, floorY) && Source(floorY, start)
    ensures var path := Path(points, floorY, start);
      Free(Poured(points, path), floorY, q) <==>
        (Free(points, floorY, q) || q == start) && q != path[|path| - 1]
  {
    var path := Path(points, floorY, start);
    PathFacts(points, floorY, start);
    PouredAt(points, path, q);
    if q in path && q != start {
      var i :| 0 <= i < |path| && path[i] == q;
      assert Free(points, floorY, path[i]);
    }
  }

  /** Every rock or sand cell other than the source keeps its content. */
  lemma KeptAfterPour(points: map<Point, char>, floorY: nat, start: Point, q: Point)
    requires Valid(points, floorY) && Source(floorY, start)
    requires q in points && q != start && points[q] != '.'
    ensures var after := Poured(points, Path(points, floorY, start));
      q in after && after[q] == points[q]
  {
    var path := Path(points, floorY, start);
    PathFacts(points, floorY, start);
    PouredAt(points, path, q);
  }

  /** Pouring a unit keeps the world valid. */
  lemma ValidAfterPour(points: map<Point, char>, floorY: nat, start: Point)
    requires Valid(points, floorY) && Source(floorY, start)
    ensures Valid(Poured(points, Path(points, floorY, start)), floorY)
  {
    var path := Path(points, floorY, start);
    var after := Poured(points, path);
    PathFacts(points, floorY, start);
    forall p | p in after
      ensures p.1 < floorY && after[p] in "#.o"
    {
      PouredAt(points, path, p);
      if p in path {
        var i :| 0 <= i < |path| && path[i] == p;
        assert Source(floorY, path[i]);
      }
    }
  }

  // -------------------------------------------------------------- pouring

  class World {
    var points: map<Point, char>
    const floorY: nat

    constructor (points: map<Point, char>, floorY: nat)
      ensures this.points == points && this.floorY == floorY
    {
      this.points := points;
      this.floorY := floorY;
    }

    /** `pour_sand`: lets one unit fall from `start`, marking the cell it
        leaves as air and the cell it enters with '+', until down,
        down-left and down-right are all blocked; that cell becomes sand and
        is returned. */
    method PourSand(start: Point) returns (rest: Point)
      requires Valid(points, floorY) && Source(floorY, start)
      modifies this
      ensures var path := Path(old(points), floorY, start);
        rest == path[|path| - 1] && points == Poured(old(points), path)
    {
      ghost var before := points;
      ghost var done: seq<Point> := [];
      var sand := start;
      while true
        invariant Source(floorY, sand)
        invariant done + Path(before, floorY, sand) == Path(before, floorY, start)
        invariant forall c | c in done :: c.1 < sand.1
        invariant points == Trail(before, done, sand)
        decreases floorY - sand.1
      {
        var down := (sand.0, sand.1 + 1);
        var downLeft := (sand.0 - 1, sand.1 + 1);
        var downRight := (sand.0 + 1, sand.1 + 1);
        SameBelow(before, done, sand, floorY);
        var a, b, c := AtPoint(points, floorY, down), AtPoint(points, floorY, downLeft), AtPoint(points, floorY, downRight);
        Classify(before, floorY, sand, a, b, c);
        var next := sand;
        if a == Some('.') {
          next := down;
        } else if Solid(a) && b == Some('.') {
          next := downLeft;
        } else if Solid(a) && Solid(b) && c == Some('.') {
          next := downRight;
        } else if Solid(a) && Solid(b) && Solid(c) {
          RestHere(before, floorY, start, done, sand);
          points := points[sand := 'o'];
          return sand;
        } else {
          assert false;
        }
        FallOn(before, floorY, start, done, sand, next);
        points := points[sand := '.'][next := '+'];
        done := done + [sand];
        sand := next;
      }
    }

    /** The pouring loop of `run`: pours units from `start` until one comes
        to rest at `start` itself and counts the units, that last one
        included. `rests` lists where each unit came to rest: every one of
        them still holds sand, and each was an air cell before. */
    method PourUntilBlocked(start: Point) returns (units: nat, ghost rests: seq<Point>)
      requires Valid(points, floorY) && Source(floorY, start)
      modifies this
      ensures Valid(points, floorY)
      ensures units == |rests| >= 1 && rests[units - 1] == start
      ensures forall i | 0 <= i < units :: rests[i] in points && points[rests[i]] == 'o'
      ensures forall i | 0 <= i < units - 1 :: Free(old(points), floorY, rests[i]) && rests[i] != start
      ensures rests == Pours(old(points), floorY, start).0 && points == Pours(old(points), floorY, start).1
    {
      ghost var original := points;
      units, rests := PourLoop(start);
      PoursOutcome(original, floorY, start, rests, points);
    }

    /** The loop itself: pours until a unit rests at `start`, following
        `Pours`. */
    method PourLoop(start: Point) returns (units: nat, ghost rests: seq<Point>)
      requires Valid(points, floorY) && Source(floorY, start)
      modifies this
      ensures Valid(points, floorY) && units == |rests|
      ensures rests == Pours(old(points), floorY, start).0 && points == Pours(old(points), floorY, start).1
    {
      ghost var target := Pours(points, floorY, start);
      units := 0;
      rests := [];
      while true
        invariant Valid(points, floorY) && units == |rests|
        invariant OnCourse(points, floorY, start, rests, target)
        invariant |rests| < |target.0|
        decreases |target.0| - |rests|
      {
        ghost var pre := points;
        var rest := PourSand(start);
        PoursRest(pre, points, floorY, start, rest, rests, target);
        units := units + 1;
        rests := rests + [rest];
        if rest == start {
          return;
        }
      }
    }
  }

  /** Where the units of the pouring rest: each on sand in the final world,
      and each but the last on a cell that was air before and is not the
      source. */
  lemma PoursOutcome(original: map<Point, char>, floorY: nat, start: Point, rests: seq<Point>, final: map<Point, char>)
    requires Valid(original, floorY) && Source(floorY, start)
    requires rests == Pours(original, floorY, start).0 && final == Pours(original, floorY, start).1
    ensures forall i | 0 <= i < |rests| :: rests[i] in final && final[rests[i]] == 'o'
    ensures forall i | 0 <= i < |rests| - 1 :: Free(original, floorY, rests[i]) && rests[i] != start
  {
    PoursFilled(original, original, floorY, start, []);
    assert [] + Pours(original, floorY, start).0 == Pours(original, floorY, start).0;
  }

  /** Every unit of the pouring rests on sand in the final world, and every
      one but the last on a cell that was air in `original` and is not the
      source, given that the units so far do so in `points`. */
  lemma {:induction false} PoursFilled(original: map<Point, char>, points: map<Point, char>, floorY: nat, start: Point, rests: seq<Point>)
    requires Valid(points, floorY) && Source(floorY, start)
    requires Filled(original, points, floorY, start, rests)
    ensures var all := rests + Pours(points, floorY, start).0;
      var final := Pours(points, floorY, start).1;
      (forall i | 0 <= i < |all| :: all[i] in final && final[all[i]] == 'o') &&
      (forall i | 0 <= i < |all| - 1 :: Free(original, floorY, all[i]) && all[i] != start)
    decreases Unfilled(points, floorY, start)
  {
    var path := Path(points, floorY, start);
    var rest := path[|path| - 1];
    var after := Poured(points, path);
    PourKeeps(original, points, floorY, start, rests);
    PoursStep(points, floorY, start);
    if rest == start {
      PourEnds(original, after, floorY, start, rests);
    } else {
      PoursFilled(original, after, floorY, start, rests + [rest]);
      AppendAssoc(rests, rest, Pours(after, floorY, start).0);
    }
  }

  /** The last unit rests at the source: with it, every unit rests on sand,
      and every earlier one on a former air cell other than the source. */
  lemma PourEnds(original: map<Point, char>, points: map<Point, char>, floorY: nat, start: Point, rests: seq<Point>)
    requires Filled(original, points, floorY, start, rests) && start in points && points[start] == 'o'
    ensures var all := rests + [start];
      (forall i | 0 <= i < |all| :: all[i] in points && points[all[i]] == 'o') &&
      (forall i | 0 <= i < |all| - 1 :: Free(original, floorY, all[i]) && all[i] != start)
  {
    var all := rests + [start];
    assert forall i | 0 <= i < |rests| :: all[i] == rests[i];
  }

  /** The units poured from `start` until one rests at `start` itself:
      where each came to rest, and the world afterwards. Each unit that
      rests elsewhere fills one more air cell within reach, so the
      pouring ends. */
  function Pours(points: map<Point, char>, floorY: nat, start: Point): (r: (seq<Point>, map<Point, char>))
    requires Valid(points, floorY) && Source(floorY, start)
    ensures |r.0| >= 1 && r.0[|r.0| - 1] == start && Valid(r.1, floorY)
    ensures forall i | 0 <= i < |r.0| - 1 :: r.0[i] != start
    decreases Unfilled(points, floorY, start)
  {
    var (rest, after) := PourOnce(points, floorY, start);
    if rest == start then ([rest], after)
    else
      var (more, final) := Pours(after, floorY, start);
      ([rest] + more, final)
  }

  /** `pour_sand` on values: where one unit from `start` rests and the
      world it leaves, which stays valid and, unless the unit rests at the
      source, has fewer air cells within reach. */
  function PourOnce(points: map<Point, char>, floorY: nat, start: Point): (r: (Point, map<Point, char>))
    requires Valid(points, floorY) && Source(floorY, start)
    ensures Valid(r.1, floorY)
    ensures r.0 != start ==> Unfilled(r.1, floorY, start) < Unfilled(points, floorY, start)
  {
    var path := Path(points, floorY, start);
    ValidAfterPour(points, floorY, start);
    FewerUnfilled(points, floorY, start);
    (path[|path| - 1], Poured(points, path))
  }

  /** One unit of `Pours`: it ends the pouring when it rests at the source
      and is followed by the pouring from the world it leaves otherwise. */
  lemma PoursStep(points: map<Point, char>, floorY: nat, start: Point)
    requires Valid(points, floorY) && Source(floorY, start)
    ensures var path := Path(points, floorY, start);
      var rest := path[|path| - 1];
      var after := Poured(points, path);
      Valid(after, floorY) &&
      (rest == start ==> Pours(points, floorY, start) == ([rest], after)) &&
      (rest != start ==>
        Pours(points, floorY, start) == ([rest] + Pours(after, floorY, start).0, Pours(after, floorY, start).1))
  {
    ValidAfterPour(points, floorY, start);
  }

  /** The pouring so far, `rests`, followed by the pouring from `points`,
      is the whole pouring `target`. */
  ghost predicate OnCourse(points: map<Point, char>, floorY: nat, start: Point, rests: seq<Point>, target: (seq<Point>, map<Point, char>))
    requires Valid(points, floorY) && Source(floorY, start)
  {
    rests + Pours(points, floorY, start).0 == target.0 && Pours(points, floorY, start).1 == target.1
  }

  /** What is left of the pouring after one more unit, which rests at
      `rest` and leaves the world `after`: nothing when it rests at the
      source, and otherwise the pouring from `after`, which has fewer air
      cells within reach. */
  lemma PoursRest(points: map<Point, char>, after: map<Point, char>, floorY: nat, start: Point, rest: Point,
                  rests: seq<Point>, target: (seq<Point>, map<Point, char>))
    requires Valid(points, floorY) && Source(floorY, start)
    requires OnCourse(points, floorY, start, rests, target)
    requires var path := Path(points, floorY, start);
      rest == path[|path| - 1] && after == Poured(points, path)
    ensures Valid(after, floorY)
    ensures rest == start ==> rests + [rest] == target.0 && after == target.1
    ensures rest != start ==> OnCourse(after, floorY, start, rests + [rest], target) && |rests| + 1 < |target.0|
  {
    PoursStep(points, floorY, start);
    if rest != start {
      AppendAssoc(rests, rest, Pours(after, floorY, start).0);
    }
  }

  lemma AppendAssoc<T>(a: seq<T>, x: T, b: seq<T>)
    ensures a + [x] + b == a + ([x] + b)
  {
  }

  /** The world while a unit falls: air along the cells it has left and
      '+' where it is. */
  function Trail(before: map<Point, char>, done: seq<Point>, sand: Point): map<Point, char> {
    if done == [] then before else Dots(before, done)[sand := '+']
  }

  /** The cells below the falling unit have not been written yet. */
  lemma SameBelow(before: map<Point, char>, done: seq<Point>, sand: Point, floorY: nat)
    requires sand.0 >= 1
    requires forall c | c in done :: c.1 < sand.1
    ensures var points := Trail(before, done, sand);
      AtPoint(points, floorY, Below(sand)) == AtPoint(before, floorY, Below(sand)) &&
      AtPoint(points, floorY, BelowLeft(sand)) == AtPoint(before, floorY, BelowLeft(sand)) &&
      AtPoint(points, floorY, BelowRight(sand)) == AtPoint(before, floorY, BelowRight(sand))
  {
    assert Below(sand) !in done && BelowLeft(sand) !in done && BelowRight(sand) !in done;
  }

  /** The three cells below a falling unit decide its step exactly as
      `Step` does, and none of them is outside the world. */
  lemma Classify(before: map<Point, char>, floorY: nat, sand: Point, a: Option<char>, b: Option<char>, c: Option<char>)
    requires Valid(before, floorY) && Source(floorY, sand)
    requires a == AtPoint(before, floorY, Below(sand))
    requires b == AtPoint(before, floorY, BelowLeft(sand))
    requires c == AtPoint(before, floorY, BelowRight(sand))
    ensures a == Some('.') || Solid(a)
    ensures b == Some('.') || Solid(b)
    ensures c == Some('.') || Solid(c)
    ensures a == Some('.') ==> Step(before, floorY, sand) == Some(Below(sand))
    ensures Solid(a) && b == Some('.') ==> Step(before, floorY, sand) == Some(BelowLeft(sand))
    ensures Solid(a) && Solid(b) && c == Some('.') ==> Step(before, floorY, sand) == Some(BelowRight(sand))
    ensures Solid(a) && Solid(b) && Solid(c) ==> Step(before, floorY, sand).None?
  {
    CellKinds(before, floorY, Below(sand));
    CellKinds(before, floorY, BelowLeft(sand));
    CellKinds(before, floorY, BelowRight(sand));
  }

  /** One fall step keeps the loop invariants of `PourSand`. */
  lemma FallOn(before: map<Point, char>, floorY: nat, start: Point, done: seq<Point>, sand: Point, next: Point)
    requires Valid(before, floorY) && Source(floorY, start) && Source(floorY, sand)
    requires done + Path(before, floorY, sand) == Path(before, floorY, start)
    requires forall c | c in done :: c.1 < sand.1
    requires Step(before, floorY, sand) == Some(next)
    ensures Source(floorY, next)
    ensures (done + [sand]) + Path(before, floorY, next) == Path(before, floorY, start)
    ensures forall c | c in done + [sand] :: c.1 < next.1
    ensures Trail(before, done, sand)[sand := '.'][next := '+'] == Trail(before, done + [sand], next)
  {
    PathStep(before, floorY, sand, next);
    var tail := Path(before, floorY, next);
    assert done + ([sand] + tail) == (done + [sand]) + tail;
    TrailStep(before, done, sand, next);
  }

  lemma PathStep(before: map<Point, char>, floorY: nat, sand: Point, next: Point)
    requires Valid(before, floorY) && Source(floorY, sand)
    requires Step(before, floorY, sand) == Some(next)
    ensures Source(floorY, next) && next.1 == sand.1 + 1
    ensures Path(before, floorY, sand) == [sand] + Path(before, floorY, next)
  {
    CellKinds(before, floorY, next);
  }

  lemma TrailStep(before: map<Point, char>, done: seq<Point>, sand: Point, next: Point)
    ensures Trail(before, done, sand)[sand := '.'][next := '+'] == Trail(before, done + [sand], next)
  {
    DotsSnoc(before, done, sand);
    if done == [] {
      assert Dots(before, done) == before;
    } else {
      var d := Dots(before, done);
      assert d[sand := '+'][sand := '.'] == d[sand := '.'];
    }
  }

  /** The last step of `PourSand` establishes its postcondition. */
  lemma RestHere(before: map<Point, char>, floorY: nat, start: Point, done: seq<Point>, sand: Point)
    requires Valid(before, floorY) && Source(floorY, start) && Source(floorY, sand)
    requires done + Path(before, floorY, sand) == Path(before, floorY, start)
    requires Step(before, floorY, sand).None?
    ensures var path := Path(before, floorY, start);
      sand == path[|path| - 1] && Trail(before, done, sand)[sand := 'o'] == Poured(before, path)
  {
    assert Path(before, floorY, sand) == [sand];
    assert (done + [sand])[..|done|] == done;
  }

  /** The invariant of the pouring loop: every unit so far rests on a cell
      that still holds sand and was air at the start, and no cell other than
      the source has turned from blocked into air. */
  ghost predicate Filled(original: map<Point, char>, points: map<Point, char>, floorY: nat, start: Point, rests: seq<Point>) {
    (forall i | 0 <= i < |rests| :: rests[i] in points && points[rests[i]] == 'o') &&
    (forall i | 0 <= i < |rests| :: Free(original, floorY, rests[i]) && rests[i] != start) &&
    (forall q | q != start && Free(points, floorY, q) :: Free(original, floorY, q))
  }

  /** One more unit keeps the invariant of the pouring loop, and unless it
      rests at the source it fills one more cell within reach. */
  lemma PourKeeps(original: map<Point, char>, points: map<Point, char>, floorY: nat, start: Point, rests: seq<Point>)
    requires Valid(points, floorY) && Source(floorY, start)
    requires Filled(original, points, floorY, start, rests)
    ensures var path := Path(points, floorY, start);
      var rest := path[|path| - 1];
      var after := Poured(points, path);
      Valid(after, floorY) &&
      (rest != start ==> Filled(original, after, floorY, start, rests + [rest])) &&
      (rest != start ==> Unfilled(after, floorY, start) < Unfilled(points, floorY, start)) &&
      (rest == start ==> Filled(original, after, floorY, start, rests) && rest in after && after[rest] == 'o')
  {
    var path := Path(points, floorY, start);
    var rest := path[|path| - 1];
    var after := Poured(points, path);
    ValidAfterPour(points, floorY, start);
    PourRests(points, floorY, start);
    RestsKept(points, floorY, start, rests);
    FreedOnlyAtSource(original, points, floorY, start);
    if rest != start {
      assert (rests + [rest])[|rests|] == rest;
      FewerUnfilled(points, floorY, start);
    }
  }

  lemma RestsKept(points: map<Point, char>, floorY: nat, start: Point, rests: seq<Point>)
    requires Valid(points, floorY) && Source(floorY, start)
    requires forall i | 0 <= i < |rests| :: rests[i] in points && points[rests[i]] == 'o' && rests[i] != start
    ensures var after := Poured(points, Path(points, floorY, start));
      forall i | 0 <= i < |rests| :: rests[i] in after && after[rests[i]] == 'o'
  {
    forall i | 0 <= i < |rests|
      ensures var after := Poured(points, Path(points, floorY, start));
        rests[i] in after && after[rests[i]] == 'o'
    {
      KeptAfterPour(points, floorY, start, rests[i]);
    }
  }

  lemma FreedOnlyAtSource(original: map<Point, char>, points: map<Point, char>, floorY: nat, start: Point)
    requires Valid(points, floorY) && Source(floorY, start)
    requires forall q | q != start && Free(points, floorY, q) :: Free(original, floorY, q)
    ensures var after := Poured(points, Path(points, floorY, start));
      forall q | q != start && Free(after, floorY, q) :: Free(original, floorY, q)
  {
    var after := Poured(points, Path(points, floorY, start));
    forall q | q != start && Free(after, floorY, q)
      ensures Free(original, floorY, q)
    {
      FreeAfterPour(points, floorY, start, q);
    }
  }

  /** The cells a unit from `start` can reach: no further right than
      `start.0 + floorY` and above the floor. */
  function Reach(start: Point, floorY: nat): set<Point> {
    set x: nat, y: nat | x <= start.0 + floorY && y < floorY :: (x, y)
  }

  function FreeInReach(points: map<Point, char>, floorY: nat, start: Point): set<Point> {
    set q | q in Reach(start, floorY) && Free(points, floorY, q)
  }

  /** The termination measure of the pouring loop: the air cells within
      reach, plus one while the source itself is blocked. */
  function Unfilled(points: map<Point, char>, floorY: nat, start: Point): nat {
    |FreeInReach(points, floorY, start)| + (if Free(points, floorY, start) then 0 else 1)
  }

  lemma CardRemove<T>(s: set<T>, x: T)
    requires x in s
    ensures |s - {x}| == |s| - 1
  {
    var t := s - {x};
    assert s == t + {x};
  }

  /** The air cells within reach after a unit: those before, with the
      source and without the resting cell. */
  lemma FreeInReachAfter(points: map<Point, char>, floorY: nat, start: Point)
    requires Valid(points, floorY) && Source(floorY, start)
    ensures var path := Path(points, floorY, start);
      FreeInReach(Poured(points, path), floorY, start) ==
        (FreeInReach(points, floorY, start) + {start}) - {path[|path| - 1]}
  {
    var path := Path(points, floorY, start);
    var after := Poured(points, path);
    InReach(start, floorY, start);
    forall q
      ensures q in FreeInReach(after, floorY, start) <==>
        q in (FreeInReach(points, floorY, start) + {start}) - {path[|path| - 1]}
    {
      FreeAfterPour(points, floorY, start, q);
    }
  }

  /** A unit that does not rest at the source fills one air cell within
      reach, and leaves the source as air. */
  lemma FewerUnfilled(points: map<Point, char>, floorY: nat, start: Point)
    requires Valid(points, floorY) && Source(floorY, start)
    ensures var path := Path(points, floorY, start);
      path[|path| - 1] != start ==>
        Unfilled(Poured(points, path), floorY, start) < Unfilled(points, floorY, start)
  {
    var path := Path(points, floorY, start);
    var rest: Point := path[|path| - 1];
    if rest != start {
      var after := Poured(points, path);
      var before := FreeInReach(points, floorY, start);
      RestInReach(points, floorY, start);
      FreeInReachAfter(points, floorY, start);
      FreeAfterPour(points, floorY, start, start);
      InReach(start, floorY, start);
      CardAfter(before, start, rest);
      MeasureDrops(before, FreeInReach(after, floorY, start), start, rest,
        Free(points, floorY, start), Free(after, floorY, start));
    }
  }

  lemma MeasureDrops(before: set<Point>, after: set<Point>, start: Point, rest: Point, wasFree: bool, isFree: bool)
    requires after == (before + {start}) - {rest}
    requires |after| == |before| - 1 + (if start in before then 0 else 1)
    requires wasFree <==> start in before
    requires isFree
    ensures |after| + (if isFree then 0 else 1) < |before| + (if wasFree then 0 else 1)
  {
  }

  lemma InReach(start: Point, floorY: nat, p: Point)
    requires p.0 <= start.0 + floorY && p.1 < floorY
    ensures p in Reach(start, floorY)
  {
    assert p == (p.0, p.1);
  }

  /** A unit that moves away from the source rests on an air cell within
      reach. */
  lemma RestInReach(points: map<Point, char>, floorY: nat, start: Point)
    requires Valid(points, floorY) && Source(floorY, start)
    ensures var path := Path(points, floorY, start);
      path[|path| - 1] != start ==> path[|path| - 1] in FreeInReach(points, floorY, start)
  {
    var path := Path(points, floorY, start);
    var rest: Point := path[|path| - 1];
    PourRests(points, floorY, start);
    InReach(start, floorY, rest);
  }

  lemma CardAfter<T>(before: set<T>, start: T, rest: T)
    requires rest in before && rest != start
    ensures |(before + {start}) - {rest}| == |before| - 1 + (if start in before then 0 else 1)
  {
    CardRemove(before, rest);
    if start in before {
      assert before + {start} == before;
    } else {
      assert (before + {start}) - {rest} == (before - {rest}) + {start};
    }
  }

  // ------------------------------------------------------------- parsing

  /** The cells a pair of consecutive endpoints contributes: the first
      endpoint, then the vertical run between the two when their x agree,
      else the horizontal run along the first endpoint's row (the second
      endpoint's y is not consulted). */
  function Segment(a: Point, b: Point): (r: seq<Point>)
  {
    if a.0 == b.0 then
      var lo, hi := Min(a.1, b.1), Max(a.1, b.1);
      [a] + seq(hi - lo + 1, i requires 0 <= i <= hi - lo => (a.0, lo + i))
    else
      var lo, hi := Min(a.0, b.0), Max(a.0, b.0);
      [a] + seq(hi - lo + 1, i requires 0 <= i <= hi - lo => (lo + i, a.1))
  }

  /** A segment holds exactly the first endpoint and the cells between the
      two endpoints along the chosen axis. */
  lemma SegmentCells(a: Point, b: Point)
    ensures forall q: Point :: q in Segment(a, b) <==>
      q == a ||
      (a.0 == b.0 && q.0 == a.0 && Min(a.1, b.1) <= q.1 <= Max(a.1, b.1)) ||
      (a.0 != b.0 && q.1 == a.1 && Min(a.0, b.0) <= q.0 <= Max(a.0, b.0))
    ensures b in Segment(a, b) <==> a.0 == b.0 || a.1 == b.1
  {
    var s := Segment(a, b);
    if a.0 == b.0 {
      var lo := Min(a.1, b.1);
      forall q: Point | q.0 == a.0 && lo <= q.1 <= Max(a.1, b.1)
        ensures q in s
      {
        assert s[1 + q.1 - lo] == q;
      }
    } else {
      var lo := Min(a.0, b.0);
      forall q: Point | q.1 == a.1 && lo <= q.0 <= Max(a.0, b.0)
        ensures q in s
      {
        assert s[1 + q.0 - lo] == q;
      }
    }
  }

  /** The `windows(2)` / `flat_map` of `parse_line`: the segments of every
      consecutive pair of endpoints, in order. */
  function Expand(ends: seq<Point>): seq<Point> {
    if |ends| < 2 then [] else Segment(ends[0], ends[1]) + Expand(ends[1..])
  }

  /** On a path of axis-parallel segments every endpoint becomes rock. */
  lemma {:induction false} EndpointsExpanded(ends: seq<Point>)
    requires |ends| >= 2
    requires forall i | 0 <= i < |ends| - 1 :: ends[i].0 == ends[i + 1].0 || ends[i].1 == ends[i + 1].1
    ensures forall i | 0 <= i < |ends| :: ends[i] in Expand(ends)
  {
    SegmentCells(ends[0], ends[1]);
    if |ends| > 2 {
      EndpointsExpanded(ends[1..]);
      assert forall i | 1 <= i < |ends| :: ends[i] == ends[1..][i - 1];
    }
  }

  /** One "x,y" endpoint, surrounded by any whitespace; None where the
      source's `unwrap` panics. */
  function ParsePoint(s: string): Option<Point> {
    match SplitOnce(Trim(s), ",")
    case None => None
    case Some((x, y)) =>
      match (ParseNat(x, UsizeMax), ParseNat(y, UsizeMax))
      case (Some(px), Some(py)) => Some((px, py))
      case _ => None
  }

  /** Every piece parsed as an endpoint. */
  function ParsedPoints(pieces: seq<string>): (r: seq<Option<Point>>)
    ensures |r| == |pieces| && forall i | 0 <= i < |pieces| :: r[i] == ParsePoint(pieces[i])
  {
    seq(|pieces|, i requires 0 <= i < |pieces| => ParsePoint(pieces[i]))
  }

  /** The endpoints of all pieces; None as soon as one of them is not one. */
  function ParsePoints(pieces: seq<string>): Option<seq<Point>> {
    AllSome(ParsedPoints(pieces))
  }

  /** `parse_line`: the endpoints between the "->" arrows, expanded into
      the rock cells of every segment. */
  function ParseLine(line: string): Option<seq<Point>> {
    match ParsePoints(SplitOn(line, "->"))
    case None => None
    case Some(ends) => Some(Expand(ends))
  }

  function PointText(p: Point): string {
    NatToString(p.0) + "," + NatToString(p.1)
  }

  /** A rock path as the puzzle writes it: "x,y -> x,y -> ...". */
  function PathText(ends: seq<Point>): string
    requires ends != []
  {
    if |ends| == 1 then PointText(ends[0])
    else PointText(ends[0]) + " -> " + PathText(ends[1..])
  }

  predicate Representable(ends: seq<Point>) {
    forall i | 0 <= i < |ends| :: ends[i].0 <= UsizeMax && ends[i].1 <= UsizeMax
  }

  lemma PointTextChars(p: Point)
    ensures var t := PointText(p);
      t != [] && IsDigit(t[0]) && IsDigit(t[|t| - 1]) && '-' !in t
  {
    var t := PointText(p);
    var x, y := NatToString(p.0), NatToString(p.1);
    assert t[0] == x[0] && t[|t| - 1] == y[|y| - 1];
    forall i | 0 <= i < |t|
      ensures t[i] != '-'
    {
      if i < |x| {
        assert t[i] == x[i];
      } else if i > |x| {
        assert t[i] == y[i - |x| - 1];
      }
    }
  }

  lemma ParsePointOfText(pre: string, p: Point, post: string)
    requires pre == [] || pre == " "
    requires post == [] || post == " "
    requires p.0 <= UsizeMax && p.1 <= UsizeMax
    ensures ParsePoint(pre + PointText(p) + post) == Some(p)
  {
    TrimPointText(pre, p, post);
    SplitPointText(p);
    ParseNatToString(p.0, UsizeMax);
    ParseNatToString(p.1, UsizeMax);
  }

  lemma TrimPointText(pre: string, p: Point, post: string)
    requires pre == [] || pre == " "
    requires post == [] || post == " "
    ensures Trim(pre + PointText(p) + post) == PointText(p)
  {
    PointTextChars(p);
    TrimOfPadded(pre, PointText(p), post);
  }

  lemma SplitPointText(p: Point)
    ensures SplitOnce(PointText(p), ",") == Some((NatToString(p.0), NatToString(p.1)))
  {
    var x, y := NatToString(p.0), NatToString(p.1);
    assert ',' !in x by {
      assert forall i | 0 <= i < |x| :: IsDigit(x[i]);
    }
    SplitOnceAtChar(x, ',', y);
  }

  /** The first "->" of "t -> r" is the one after `t`. */
  lemma ArrowSplit(pre: string, t: string, r: string)
    requires pre == [] || pre == " "
    requires '-' !in t
    ensures SplitOn(pre + (t + " -> " + r), "->") == [pre + t + " "] + SplitOn(" " + r, "->")
  {
    var first := pre + t + " ";
    assert pre + (t + " -> " + r) == first + "->" + (" " + r);
    assert '-' !in first;
    SplitOnceAtPattern(first, "->", " " + r);
  }

  /** The pieces between the arrows of a rendered rock path: each endpoint
      text with the spaces around the arrows. */
  function Pieces(pre: string, ends: seq<Point>): (r: seq<string>)
    ensures |r| == |ends|
  {
    seq(|ends|, i requires 0 <= i < |ends| =>
      (if i == 0 then pre else " ") + PointText(ends[i]) + (if i + 1 < |ends| then " " else ""))
  }

  lemma {:induction false} SplitPathText(pre: string, ends: seq<Point>)
    requires pre == [] || pre == " "
    requires ends != []
    ensures SplitOn(pre + PathText(ends), "->") == Pieces(pre, ends)
    decreases |ends|
  {
    var e := ends[0];
    PointTextChars(e);
    if |ends| == 1 {
      var s := pre + PointText(e);
      SplitOnceAbsent(s, "->");
      assert s + "" == s;
    } else {
      var rest := ends[1..];
      assert PathText(ends) == PointText(e) + " -> " + PathText(rest);
      ArrowSplit(pre, PointText(e), PathText(rest));
      SplitPathText(" ", rest);
      PiecesCons(pre, ends);
    }
  }

  lemma ParsePieces(pre: string, ends: seq<Point>)
    requires pre == [] || pre == " "
    requires Representable(ends)
    ensures ParsePoints(Pieces(pre, ends)) == Some(ends)
  {
    var pieces := Pieces(pre, ends);
    forall i | 0 <= i < |ends|
      ensures ParsePoint(pieces[i]) == Some(ends[i])
    {
      ParsePointOfText(if i == 0 then pre else " ", ends[i], if i + 1 < |ends| then " " else "");
    }
    ParseAll(pieces, ends);
  }

  lemma ParseAll(pieces: seq<string>, ends: seq<Point>)
    requires |pieces| == |ends|
    requires forall i | 0 <= i < |ends| :: ParsePoint(pieces[i]) == Some(ends[i])
    ensures ParsePoints(pieces) == Some(ends)
  {
    var opts := ParsedPoints(pieces);
    assert forall i | 0 <= i < |ends| :: opts[i] == Some(ends[i]);
    var r := AllSome(opts);
    assert r.Some?;
    assert r.value == ends;
  }

  lemma PiecesCons(pre: string, ends: seq<Point>)
    requires |ends| >= 2
    ensures Pieces(pre, ends) == [pre + PointText(ends[0]) + " "] + Pieces(" ", ends[1..])
  {
    var a := Pieces(pre, ends);
    var b := [pre + PointText(ends[0]) + " "] + Pieces(" ", ends[1..]);
    forall i | 0 <= i < |a|
      ensures a[i] == b[i]
    {
      if i > 0 {
        assert ends[1..][i - 1] == ends[i];
      }
    }
  }

  /** Parsing a rendered rock path gives back the cells of its segments. */
  lemma ParseLineOfText(ends: seq<Point>)
    requires ends != [] && Representable(ends)
    ensures ParseLine(PathText(ends)) == Some(Expand(ends))
  {
    SplitPathText([], ends);
    ParsePieces([], ends);
    assert [] + PathText(ends) == PathText(ends);
  }
}
