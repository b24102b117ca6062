/** Day 23 (Unstable Diffusion): elves on a grid spread out in rounds. In
    the first half of a round every elf with a neighbour proposes a step in
    the first free direction of a rotating list; in the second half the
    elves whose target no other elf proposed move there. */
module Day23Elves {
  import opened Text

  /** (row, column); rows grow southward, columns eastward. */
  type Position = (int, int)

  datatype Direction = North | NorthEast | East | SouthEast | South | SouthWest | West | NorthWest

  /** The cell one step from `p` in direction `d`. */
  function Step(p: Position, d: Direction): Position {
    match d
    case North => (p.0 - 1, p.1)
    case NorthEast => (p.0 - 1, p.1 + 1)
    case East => (p.0, p.1 + 1)
    case SouthEast => (p.0 + 1, p.1 + 1)
    case South => (p.0 + 1, p.1)
    case SouthWest => (p.0 + 1, p.1 - 1)
    case West => (p.0, p.1 - 1)
    case NorthWest => (p.0 - 1, p.1 - 1)
  }

  /** The eight directions of `adjacent_elves`. */
  const Around: seq<Direction> := [North, NorthEast, East, SouthEast, South, SouthWest, West, NorthWest]

  /** Whether any of the eight cells around `elf` holds an elf. */
  predicate HasNeighbour(elves: seq<Position>, elf: Position) {
    exists i | 0 <= i < 8 :: Step(elf, Around[i]) in elves
  }

  /** The four directions an elf may propose. */
  predicate Cardinal(d: Direction) {
    d == North || d == South || d == West || d == East
  }

  predicate AllCardinal(dirs: seq<Direction>) {
    forall i | 0 <= i < |dirs| :: Cardinal(dirs[i])
  }

  /** The three cells an elf checks before proposing `d`: the step itself
      and the two diagonals beside it. */
  function Side(d: Direction): (r: seq<Direction>)
    requires Cardinal(d)
    ensures |r| == 3 && r[0] == d
  {
    if d == North then [North, NorthEast, NorthWest]
    else if d == South then [South, SouthEast, SouthWest]
    else if d == West then [West, NorthWest, SouthWest]
    else [East, NorthEast, SouthEast]
  }

  /** `is_viable_direction`: none of the three cells on the side of `d`
      holds an elf. The source panics on a diagonal `d`. */
  predicate Viable(elves: seq<Position>, elf: Position, d: Direction)
    requires Cardinal(d)
  {
    forall k | 0 <= k < 3 :: Step(elf, Side(d)[k]) !in elves
  }

  /** A viable direction leads to a free cell. */
  lemma ViableFreesTarget(elves: seq<Position>, elf: Position, d: Direction)
    requires Cardinal(d) && Viable(elves, elf, d)
    ensures Step(elf, d) !in elves
  {
    assert Side(d)[0] == d;
  }

  /** The first direction of `dirs` that is viable, if any. */
  function FirstViable(elves: seq<Position>, elf: Position, dirs: seq<Direction>): (r: Option<Direction>)
    requires AllCardinal(dirs)
    ensures r.Some? <==> exists i | 0 <= i < |dirs| :: Viable(elves, elf, dirs[i])
    ensures r.Some? ==> exists i | 0 <= i < |dirs| ::
      (dirs[i] == r.value && Viable(elves, elf, dirs[i]) && forall j | 0 <= j < i :: !Viable(elves, elf, dirs[j]))
  {
    if dirs == [] then None
    else if Viable(elves, elf, dirs[0]) then Some(dirs[0])
    else
      var r := FirstViable(elves, elf, dirs[1..]);
      assert forall i | 1 <= i < |dirs| :: dirs[i] == dirs[1..][i - 1];
      r
  }

  /** What an elf proposes in the first half of a round: nothing when no
      elf is around it, otherwise the first viable direction in the current
      order, if any. */
  function Proposal(elves: seq<Position>, dirs: seq<Direction>, elf: Position): (r: Option<Direction>)
    requires AllCardinal(dirs)
    ensures !HasNeighbour(elves, elf) ==> r.None?
    ensures HasNeighbour(elves, elf) ==> r == FirstViable(elves, elf, dirs)
    ensures r.Some? ==> Cardinal(r.value) && Step(elf, r.value) !in elves
  {
    if !HasNeighbour(elves, elf) then None
    else
      var r := FirstViable(elves, elf, dirs);
      if r.Some? then ViableFreesTarget(elves, elf, r.value); r else r
  }

  /** The proposals the first half records for the elves `es`, in order;
      `ProposedMeaning` states what it holds. */
  function Proposed(elves: seq<Position>, dirs: seq<Direction>, es: seq<Position>): map<Position, Direction>
    requires AllCardinal(dirs)
  {
    if es == [] then map[]
    else
      var rest := Proposed(elves, dirs, es[..|es| - 1]);
      var e := es[|es| - 1];
      match Proposal(elves, dirs, e)
      case None => rest
      case Some(d) => rest[e := d]
  }

  /** The recorded proposals are exactly those of the elves in `es` that
      propose something, each with the direction it proposes. */
  lemma {:induction false} ProposedMeaning(elves: seq<Position>, dirs: seq<Direction>, es: seq<Position>)
    requires AllCardinal(dirs)
    ensures forall k :: k in Proposed(elves, dirs, es) <==> k in es && Proposal(elves, dirs, k).Some?
    ensures forall k | k in Proposed(elves, dirs, es) :: Proposal(elves, dirs, k) == Some(Proposed(elves, dirs, es)[k])
  {
    if es != [] {
      ProposedMeaning(elves, dirs, es[..|es| - 1]);
      assert forall k :: k in es <==> k in es[..|es| - 1] || k == es[|es| - 1];
    }
  }

  /** Every entry of a proposal map is an elf stepping into a free cell. */
  predicate Fits(elves: seq<Position>, proposals: map<Position, Direction>) {
    forall k | k in proposals :: k in elves && Step(k, proposals[k]) !in elves
  }

  predicate Distinct<T(==)>(s: seq<T>) {
    forall i, j | 0 <= i < j < |s| :: s[i] != s[j]
  }

  /** The list of directions after one rotation: the first goes last. */
  function RotatedLeft<T>(s: seq<T>): (r: seq<T>)
    requires s != []
    ensures |r| == |s| && r[|r| - 1] == s[0]
    ensures forall i | 0 <= i < |s| - 1 :: r[i] == s[i + 1]
  {
    s[1..] + [s[0]]
  }

  /** `k` rotations of a list. */
  function Rotations<T>(s: seq<T>, k: nat): (r: seq<T>)
    ensures |r| == |s|
  {
    if k == 0 || s == [] then s else RotatedLeft(Rotations(s, k - 1))
  }

  /** After `k` rotations the list starts at its `k`-th element. */
  lemma {:induction false} RotationsSplit<T>(s: seq<T>, k: nat)
    requires k <= |s|
    ensures Rotations(s, k) == s[k..] + s[..k]
  {
    if k > 0 {
      RotationsSplit(s, k - 1);
      var r := s[k - 1..] + s[..k - 1];
      assert RotatedLeft(r) == s[k..] + s[..k] by {
        assert r[1..] == s[k..] + s[..k - 1];
        assert s[..k] == s[..k - 1] + [s[k - 1]];
      }
    }
  }

  /** As many rotations as directions give the original order back. */
  lemma RotationsRestore<T>(s: seq<T>)
    ensures Rotations(s, |s|) == s
  {
    RotationsSplit(s, |s|);
    assert s[|s|..] + s[..|s|] == s;
  }

  /** The source's test: two rotations of the initial order. */
  lemma RotationExample()
    ensures Rotations([North, South, West, East], 1) == [South, West, East, North]
    ensures Rotations([North, South, West, East], 2) == [West, East, North, South]
  {
    RotationsSplit([North, South, West, East], 1);
    RotationsSplit([North, South, West, East], 2);
  }

  /** No other proposal leads to the same cell as `e`'s. */
  predicate Unique(proposals: map<Position, Direction>, e: Position)
    requires e in proposals
  {
    forall o | o in proposals && o != e :: Step(o, proposals[o]) != Step(e, proposals[e])
  }

  /** Where an elf stands after the second half: on its target when it is
      the only one to propose that target, else where it was. */
  function Moved(proposals: map<Position, Direction>, e: Position): Position {
    if e in proposals && Unique(proposals, e) then Step(e, proposals[e]) else e
  }

  /** The elves that move in the second half. */
  function Moving(proposals: map<Position, Direction>): set<Position> {
    set e | e in proposals && Unique(proposals, e)
  }

  /** The elves that move are exactly those whose position changes. */
  lemma MovingChanges(elves: seq<Position>, proposals: map<Position, Direction>, e: Position)
    requires Fits(elves, proposals) && e in elves
    ensures Moved(proposals, e) != e <==> e in Moving(proposals)
  {
  }

  /** A grouping of the proposers in `done` by the cell they lead to: each
      group is non-empty, without repeats and holds only proposers of its
      target, and every proposer in `done` is in its target's group. */
  predicate GroupedPart(proposals: map<Position, Direction>, done: set<Position>, groups: map<Position, seq<Position>>) {
    (forall t | t in groups :: groups[t] != [] && Distinct(groups[t]) &&
       forall k | 0 <= k < |groups[t]| :: groups[t][k] in done && groups[t][k] in proposals &&
         Step(groups[t][k], proposals[groups[t][k]]) == t) &&
    (forall e | e in done && e in proposals :: Step(e, proposals[e]) in groups && e in groups[Step(e, proposals[e])])
  }

  predicate Grouped(proposals: map<Position, Direction>, groups: map<Position, seq<Position>>) {
    GroupedPart(proposals, proposals.Keys, groups)
  }

  /** `elf` appended to the group of its target. */
  function AddToGroup(groups: map<Position, seq<Position>>, target: Position, elf: Position): map<Position, seq<Position>> {
    if target in groups then groups[target := groups[target] + [elf]] else groups[target := [elf]]
  }

  /** Adding a new proposer to its target's group extends the grouping. */
  lemma AddToGroupPart(proposals: map<Position, Direction>, done: set<Position>, groups: map<Position, seq<Position>>, elf: Position)
    requires GroupedPart(proposals, done, groups) && elf in proposals && elf !in done
    ensures GroupedPart(proposals, done + {elf}, AddToGroup(groups, Step(elf, proposals[elf]), elf))
  {
    var target := Step(elf, proposals[elf]);
    var after := AddToGroup(groups, target, elf);
    forall t | t in after
      ensures after[t] != [] && Distinct(after[t])
      ensures forall k | 0 <= k < |after[t]| :: (after[t][k] in done + {elf} && after[t][k] in proposals &&
        Step(after[t][k], proposals[after[t][k]]) == t)
    {
      if t == target && target in groups {
        assert after[t] == groups[t] + [elf];
        assert elf !in groups[t];
      }
    }
  }

  /** The first loop of `perform_second_half_of_round`: the proposals, in
      unspecified order, grouped by the cell they lead to. */
  method GroupByTarget(proposals: map<Position, Direction>) returns (groups: map<Position, seq<Position>>)
    ensures Grouped(proposals, groups)
  {
    groups := map[];
    var todo := proposals.Keys;
    ghost var done: set<Position> := {};
    while todo != {}
      invariant todo + done == proposals.Keys && todo !! done
      invariant GroupedPart(proposals, done, groups)
      decreases todo
    {
      var elf :| elf in todo;
      groups := GroupProposal(proposals, done, groups, elf);
      todo := todo - {elf};
      done := done + {elf};
    }
    assert done == proposals.Keys;
  }

  /** One step of the first loop: `elf` joins the group of its target,
      which is created when it is the first proposer of that cell. */
  method GroupProposal(proposals: map<Position, Direction>, ghost done: set<Position>,
                       groups: map<Position, seq<Position>>, elf: Position)
      returns (groups': map<Position, seq<Position>>)
    requires GroupedPart(proposals, done, groups) && elf in proposals && elf !in done
    ensures GroupedPart(proposals, done + {elf}, groups')
  {
    var target := Step(elf, proposals[elf]);
    AddToGroupPart(proposals, done, groups, elf);
    if target in groups {
      groups' := groups[target := groups[target] + [elf]];
    } else {
      groups' := groups[target := [elf]];
    }
  }

  /** A target's group has one member exactly when that member's proposal
      is unique. */
  lemma GroupedUnique(proposals: map<Position, Direction>, groups: map<Position, seq<Position>>, t: Position, e: Position)
    requires Grouped(proposals, groups) && t in groups
    requires e in proposals && Step(e, proposals[e]) == t
    ensures Unique(proposals, e) <==> |groups[t]| == 1
    ensures |groups[t]| == 1 ==> groups[t][0] == e
  {
    assert e in groups[t];
    if |groups[t]| == 1 {
      forall o | o in proposals && o != e
        ensures Step(o, proposals[o]) != t
      {
        assert o in groups[Step(o, proposals[o])];
      }
    } else {
      var other := if groups[t][0] == e then groups[t][1] else groups[t][0];
      assert other != e && other in proposals && Step(other, proposals[other]) == t;
    }
  }

  /** `position(..).unwrap()`: the first index holding `x`. */
  function IndexIn<T(==)>(s: seq<T>, x: T): (r: nat)
    requires x in s
    ensures r < |s| && s[r] == x && forall j | 0 <= j < r :: s[j] != x
  {
    if s[0] == x then 0 else 1 + IndexIn(s[1..], x)
  }

  /** Where an elf stands once the targets outside `pending` are done. */
  function MovedOutside(proposals: map<Position, Direction>, pending: set<Position>, e: Position): Position {
    if e in proposals && Unique(proposals, e) && Step(e, proposals[e]) !in pending then Step(e, proposals[e]) else e
  }

  /** The elves that have moved once the targets outside `pending` are done. */
  function MovingOutside(proposals: map<Position, Direction>, pending: set<Position>): set<Position> {
    set e | e in proposals && Unique(proposals, e) && Step(e, proposals[e]) !in pending
  }

  /** Settling one pending target: when it has a single proposer, that elf
      moves and joins the moved ones; otherwise nothing changes. */
  lemma TargetDone(proposals: map<Position, Direction>, groups: map<Position, seq<Position>>, pending: set<Position>, target: Position)
    requires Grouped(proposals, groups) && target in pending && target in groups
    ensures |groups[target]| == 1 ==>
      groups[target][0] in proposals && Step(groups[target][0], proposals[groups[target][0]]) == target &&
      groups[target][0] !in MovingOutside(proposals, pending) &&
      MovingOutside(proposals, pending - {target}) == MovingOutside(proposals, pending) + {groups[target][0]}
    ensures |groups[target]| != 1 ==> MovingOutside(proposals, pending - {target}) == MovingOutside(proposals, pending)
    ensures forall e :: (MovedOutside(proposals, pending - {target}, e) ==
      if |groups[target]| == 1 && e == groups[target][0] then target else MovedOutside(proposals, pending, e))
  {
    SoleProposer(proposals, groups, target);
    var group := groups[target];
    var before, after := MovingOutside(proposals, pending), MovingOutside(proposals, pending - {target});
    var added := if |group| == 1 then {group[0]} else {};
    forall e ensures e in after <==> e in before + added {
      if e in proposals && Step(e, proposals[e]) == target && Unique(proposals, e) {
        assert e in after && e !in before;
      }
    }
    assert after == before + added;
    forall e ensures MovedOutside(proposals, pending - {target}, e) ==
      if |group| == 1 && e == group[0] then target else MovedOutside(proposals, pending, e)
    {
    }
  }

  /** The proposers of `target` that move are its group's member when the
      group has one member, and nobody otherwise. */
  lemma SoleProposer(proposals: map<Position, Direction>, groups: map<Position, seq<Position>>, target: Position)
    requires Grouped(proposals, groups) && target in groups
    ensures |groups[target]| == 1 ==>
      groups[target][0] in proposals && Step(groups[target][0], proposals[groups[target][0]]) == target &&
      Unique(proposals, groups[target][0])
    ensures forall e | e in proposals && Step(e, proposals[e]) == target && Unique(proposals, e) ::
      |groups[target]| == 1 && e == groups[target][0]
  {
    var group := groups[target];
    assert group[0] in proposals && Step(group[0], proposals[group[0]]) == target;
    GroupedUnique(proposals, groups, target, group[0]);
    forall e | e in proposals && Step(e, proposals[e]) == target && Unique(proposals, e)
      ensures |group| == 1 && e == group[0]
    {
      GroupedUnique(proposals, groups, target, e);
    }
  }

  /** An elf whose target is still pending stands where it started. */
  lemma ElfPresent(start: seq<Position>, proposals: map<Position, Direction>, pending: set<Position>, elves: seq<Position>, elf: Position)
    requires Fits(start, proposals) && |elves| == |start|
    requires forall i | 0 <= i < |start| :: elves[i] == MovedOutside(proposals, pending, start[i])
    requires elf in proposals && Step(elf, proposals[elf]) in pending
    ensures elf in elves
  {
    var j :| 0 <= j < |start| && start[j] == elf;
    assert elves[j] == elf;
  }

  /** The one place holding an elf whose target is still pending is the
      place it started from. */
  lemma ElfIndex(start: seq<Position>, proposals: map<Position, Direction>, pending: set<Position>, elves: seq<Position>, elf: Position, index: nat)
    requires Distinct(start) && Fits(start, proposals) && |elves| == |start|
    requires forall i | 0 <= i < |start| :: elves[i] == MovedOutside(proposals, pending, start[i])
    requires elf in proposals && index < |elves| && elves[index] == elf
    ensures forall i | 0 <= i < |start| :: start[i] == elf <==> i == index
  {
    assert elf in start;
    assert start[index] == elf;
  }

  /** Elves standing where `Moved` puts them stay pairwise distinct. */
  lemma MovedDistinct(before: seq<Position>, proposals: map<Position, Direction>, after: seq<Position>)
    requires Distinct(before) && Fits(before, proposals)
    requires |after| == |before| && forall i | 0 <= i < |before| :: after[i] == Moved(proposals, before[i])
    ensures Distinct(after)
  {
  }

  /** The two characters a map may hold. */
  predicate IsCell(c: char) {
    c == '#' || c == '.'
  }

  /** Row-major order: by row, then by column. */
  predicate Before(p: Position, q: Position) {
    p.0 < q.0 || (p.0 == q.0 && p.1 < q.1)
  }

  predicate Ascending(s: seq<Position>) {
    forall i, j | 0 <= i < j < |s| :: Before(s[i], s[j])
  }

  lemma AscendingDistinct(s: seq<Position>)
    requires Ascending(s)
    ensures Distinct(s)
  {
  }

  /** The elves of one line of the map, read as row `x`: one at each '#',
      none at a '.', and no result when any other character occurs. */
  function RowElves(x: int, row: string): (r: Option<seq<Position>>)
    ensures r.Some? <==> forall j | 0 <= j < |row| :: IsCell(row[j])
    ensures r.Some? ==> forall i | 0 <= i < |r.value| ::
      r.value[i].0 == x && 0 <= r.value[i].1 < |row| && row[r.value[i].1] == '#'
    ensures r.Some? ==> forall j | 0 <= j < |row| && row[j] == '#' :: (x, j) in r.value
    ensures r.Some? ==> Ascending(r.value)
  {
    if row == [] then Some([])
    else
      var last := |row| - 1;
      match RowElves(x, row[..last])
      case None => None
      case Some(es) =>
        if row[last] == '#' then Some(es + [(x, last)])
        else if row[last] == '.' then Some(es)
        else None
  }

  /** The elves of a map given as its rows, row `x` read by `RowElves`; no
      result when any row holds a character other than '#' and '.'. Its
      meaning is stated by `GridValid`, `GridSound`, `GridComplete` and
      `GridAscending`. */
  function GridElves(rows: seq<string>): Option<seq<Position>> {
    if rows == [] then Some([])
    else
      var last := |rows| - 1;
      match GridElves(rows[..last])
      case None => None
      case Some(es) =>
        match RowElves(last, rows[last])
        case None => None
        case Some(row) => Some(es + row)
  }

  /** A map is read exactly when every character of every row is
      '#' or '.'. */
  lemma {:induction false} GridValid(rows: seq<string>)
    ensures GridElves(rows).Some? <==>
      forall k, j | 0 <= k < |rows| && 0 <= j < |rows[k]| :: IsCell(rows[k][j])
  {
    if rows != [] {
      var last := |rows| - 1;
      GridValid(rows[..last]);
      assert forall k | 0 <= k < last :: rows[..last][k] == rows[k];
    }
  }

  /** The elves read from a map stand on its '#' characters. */
  lemma {:induction false} GridSound(rows: seq<string>)
    requires GridElves(rows).Some?
    ensures forall i | 0 <= i < |GridElves(rows).value| ::
      var p := GridElves(rows).value[i];
      0 <= p.0 < |rows| && 0 <= p.1 < |rows[p.0]| && rows[p.0][p.1] == '#'
  {
    if rows != [] {
      var last := |rows| - 1;
      GridSound(rows[..last]);
      assert forall k | 0 <= k < last :: rows[..last][k] == rows[k];
    }
  }

  /** Every '#' character of a map that is read holds an elf. */
  lemma GridComplete(rows: seq<string>)
    requires GridElves(rows).Some?
    ensures forall k, j | 0 <= k < |rows| && 0 <= j < |rows[k]| && rows[k][j] == '#' ::
      (k, j) in GridElves(rows).value
  {
    forall k, j | 0 <= k < |rows| && 0 <= j < |rows[k]| && rows[k][j] == '#'
      ensures (k, j) in GridElves(rows).value
    {
      GridHas(rows, k, j);
    }
  }

  lemma {:induction false} GridHas(rows: seq<string>, k: int, j: int)
    requires GridElves(rows).Some?
    requires 0 <= k < |rows| && 0 <= j < |rows[k]| && rows[k][j] == '#'
    ensures (k, j) in GridElves(rows).value
  {
    var last := |rows| - 1;
    if k < last {
      assert rows[..last][k] == rows[k];
      GridHas(rows[..last], k, j);
    }
  }

  /** The elves read from a map come in row-major order. */
  lemma {:induction false} GridAscending(rows: seq<string>)
    requires GridElves(rows).Some?
    ensures Ascending(GridElves(rows).value)
  {
    if rows != [] {
      var last := |rows| - 1;
      GridAscending(rows[..last]);
      GridSound(rows[..last]);
    }
  }

  /** The inner loop of `from_str`: the characters of one trimmed line. */
  method ParseRow(x: int, line: string) returns (r: Option<seq<Position>>)
    ensures r == RowElves(x, line)
  {
    var elves: seq<Position> := [];
    for y := 0 to |line|
      invariant RowElves(x, line[..y]) == Some(elves)
    {
      RowStep(x, line, y);
      if line[y] == '#' {
        elves := elves + [(x, y)];
      } else if line[y] != '.' {
        RowInvalid(x, line, y);
        return None;
      }
    }
    assert line[..|line|] == line;
    r := Some(elves);
  }

  lemma RowStep(x: int, line: string, y: int)
    requires 0 <= y < |line|
    ensures RowElves(x, line[..y + 1]) ==
      match RowElves(x, line[..y])
      case None => None
      case Some(es) => if line[y] == '#' then Some(es + [(x, y)]) else if line[y] == '.' then Some(es) else None
  {
    assert line[..y + 1][..y] == line[..y];
  }

  lemma RowInvalid(x: int, line: string, y: int)
    requires 0 <= y < |line| && !IsCell(line[y])
    ensures RowElves(x, line) == None
  {
  }

  /** Each line with surrounding whitespace removed. */
  function Trimmed(lines: seq<string>): (r: seq<string>)
    ensures |r| == |lines| && forall k | 0 <= k < |lines| :: r[k] == Trim(lines[k])
  {
    seq(|lines|, k requires 0 <= k < |lines| => Trim(lines[k]))
  }

  /** The outer loop of `from_str`: the lines of the input, each trimmed. */
  method ParseElves(s: string) returns (r: Option<seq<Position>>)
    ensures r == GridElves(Trimmed(Lines(s)))
  {
    var lines := Lines(s);
    ghost var rows := Trimmed(lines);
    var elves: seq<Position> := [];
    for x := 0 to |lines|
      invariant GridElves(rows[..x]) == Some(elves)
    {
      var row := ParseRow(x, Trim(lines[x]));
      GridStep(rows, x);
      if row.None? {
        GridNone(rows, x);
        return None;
      }
      elves := elves + row.value;
    }
    assert rows[..|rows|] == rows;
    r := Some(elves);
  }

  lemma GridStep(rows: seq<string>, x: int)
    requires 0 <= x < |rows|
    ensures GridElves(rows[..x + 1]) ==
      match GridElves(rows[..x])
      case None => None
      case Some(es) =>
        match RowElves(x, rows[x])
        case None => None
        case Some(row) => Some(es + row)
  {
    assert rows[..x + 1][..x] == rows[..x];
  }

  /** A line that cannot be read spoils the whole map. */
  lemma GridNone(rows: seq<string>, x: int)
    requires 0 <= x < |rows| && RowElves(x, rows[x]).None?
    ensures GridElves(rows) == None
  {
    var line := rows[x];
    var y :| 0 <= y < |line| && !IsCell(line[y]);
    GridValid(rows);
  }

  /** Rows `top ..= bottom` and columns `left ..= right`. */
  datatype Rect = Rect(top: int, bottom: int, left: int, right: int)

  predicate Holds(r: Rect, p: Position) {
    r.top <= p.0 <= r.bottom && r.left <= p.1 <= r.right
  }

  /** The smallest rectangle holding every elf: the least and greatest row
      and column over the elves, as `BoundsHold` and `BoundsTight` state. */
  function Bounds(elves: seq<Position>): Rect
    requires elves != []
  {
    var last := |elves| - 1;
    var p := elves[last];
    if last == 0 then Rect(p.0, p.0, p.1, p.1)
    else
      var b := Bounds(elves[..last]);
      Rect(if p.0 < b.top then p.0 else b.top, if b.bottom < p.0 then p.0 else b.bottom,
           if p.1 < b.left then p.1 else b.left, if b.right < p.1 then p.1 else b.right)
  }

  /** Every elf lies in the bounding rectangle. */
  lemma {:induction false} BoundsHold(elves: seq<Position>)
    requires elves != []
    ensures forall i | 0 <= i < |elves| :: Holds(Bounds(elves), elves[i])
  {
    var last := |elves| - 1;
    if last > 0 {
      BoundsHold(elves[..last]);
      assert forall i | 0 <= i < last :: elves[..last][i] == elves[i];
    }
  }

  /** Each side of the bounding rectangle touches an elf. */
  lemma {:induction false} BoundsTight(elves: seq<Position>)
    requires elves != []
    ensures exists i | 0 <= i < |elves| :: elves[i].0 == Bounds(elves).top
    ensures exists i | 0 <= i < |elves| :: elves[i].0 == Bounds(elves).bottom
    ensures exists i | 0 <= i < |elves| :: elves[i].1 == Bounds(elves).left
    ensures exists i | 0 <= i < |elves| :: elves[i].1 == Bounds(elves).right
  {
    var last := |elves| - 1;
    if last > 0 {
      var rest := elves[..last];
      var b, p := Bounds(rest), elves[last];
      BoundsTight(rest);
      assert forall i | 0 <= i < last :: rest[i] == elves[i];
      if p.0 >= b.top {
        var i :| 0 <= i < last && rest[i].0 == b.top;
        assert elves[i].0 == Bounds(elves).top;
      }
      if p.0 <= b.bottom {
        var i :| 0 <= i < last && rest[i].0 == b.bottom;
        assert elves[i].0 == Bounds(elves).bottom;
      }
      if p.1 >= b.left {
        var i :| 0 <= i < last && rest[i].1 == b.left;
        assert elves[i].1 == Bounds(elves).left;
      }
      if p.1 <= b.right {
        var i :| 0 <= i < last && rest[i].1 == b.right;
        assert elves[i].1 == Bounds(elves).right;
      }
    } else {
      assert Bounds(elves) == Rect(elves[0].0, elves[0].0, elves[0].1, elves[0].1);
    }
  }

  /** An elf lies in the bounding rectangle, which is therefore not empty. */
  lemma InBounds(elves: seq<Position>, p: Position)
    requires p in elves
    ensures Holds(Bounds(elves), p)
    ensures Bounds(elves).top <= Bounds(elves).bottom && Bounds(elves).left <= Bounds(elves).right
  {
    BoundsHold(elves);
    var i :| 0 <= i < |elves| && elves[i] == p;
  }

  /** The cells of rows `x0 .. x1 - 1` and columns `y0 .. y1 - 1`. */
  ghost function Cells(x0: int, x1: int, y0: int, y1: int): set<Position> {
    set x: int, y: int | x0 <= x < x1 && y0 <= y < y1 :: (x, y)
  }

  /** The smallest rectangle holding every elf. */
  ghost function Box(elves: seq<Position>): set<Position>
    requires elves != []
  {
    var b := Bounds(elves);
    Cells(b.top, b.bottom + 1, b.left, b.right + 1)
  }

  /** The number of cells of the smallest rectangle holding every elf. */
  function Area(elves: seq<Position>): int
    requires elves != []
  {
    var b := Bounds(elves);
    (b.bottom - b.top + 1) * (b.right - b.left + 1)
  }

  ghost function ElfSet(elves: seq<Position>): set<Position> {
    set p | p in elves
  }

  /** A row of cells has one cell per column. */
  lemma {:induction false} RowCells(x: int, y0: int, y1: int)
    requires y0 <= y1
    ensures |Cells(x, x + 1, y0, y1)| == y1 - y0
    decreases y1 - y0
  {
    if y1 > y0 {
      RowCells(x, y0, y1 - 1);
      assert Cells(x, x + 1, y0, y1) == Cells(x, x + 1, y0, y1 - 1) + {(x, y1 - 1)};
    } else {
      assert Cells(x, x + 1, y0, y1) == {};
    }
  }

  /** A rectangle has as many cells as its width times its height. */
  lemma {:induction false} RectangleCells(x0: int, x1: int, y0: int, y1: int)
    requires x0 <= x1 && y0 <= y1
    ensures |Cells(x0, x1, y0, y1)| == (x1 - x0) * (y1 - y0)
    decreases x1 - x0
  {
    if x1 > x0 {
      RectangleCells(x0, x1 - 1, y0, y1);
      RowCells(x1 - 1, y0, y1);
      assert Cells(x0, x1, y0, y1) == Cells(x0, x1 - 1, y0, y1) + Cells(x1 - 1, x1, y0, y1);
      assert Cells(x0, x1 - 1, y0, y1) !! Cells(x1 - 1, x1, y0, y1);
      assert (x1 - x0) * (y1 - y0) == (x1 - 1 - x0) * (y1 - y0) + (y1 - y0) by {
        MulStep(x1 - x0, y1 - y0);
      }
    } else {
      assert Cells(x0, x1, y0, y1) == {};
    }
  }

  lemma MulStep(a: int, b: int)
    ensures a * b == (a - 1) * b + b
  {
  }

  /** Distinct elves occupy as many cells as there are elves. */
  lemma {:induction false} ElfSetSize(elves: seq<Position>)
    requires Distinct(elves)
    ensures |ElfSet(elves)| == |elves|
  {
    if elves != [] {
      var rest := elves[..|elves| - 1];
      ElfSetSize(rest);
      assert ElfSet(elves) == ElfSet(rest) + {elves[|elves| - 1]};
    }
  }

  /** The cells of the bounding rectangle that hold no elf number its area
      less the number of elves. */
  lemma EmptyCellsCount(elves: seq<Position>, b: Rect)
    requires elves != [] && Distinct(elves) && b == Bounds(elves)
    ensures b.top <= b.bottom && b.left <= b.right
    ensures EmptyInRows(elves, b.top, b.bottom + 1, b.left, b.right + 1)
      == |Box(elves) - ElfSet(elves)| == Area(elves) - |elves|
  {
    InBounds(elves, elves[0]);
    EmptyInRowsBox(elves, b);
    EmptyBoxCount(elves);
  }

  lemma EmptyInRowsBox(elves: seq<Position>, b: Rect)
    requires elves != [] && b == Bounds(elves)
    ensures EmptyInRows(elves, b.top, b.bottom + 1, b.left, b.right + 1) == |Box(elves) - ElfSet(elves)|
  {
    InBounds(elves, elves[0]);
    EmptyInRowsCells(elves, b.top, b.bottom + 1, b.left, b.right + 1);
  }

  lemma EmptyBoxCount(elves: seq<Position>)
    requires elves != [] && Distinct(elves)
    ensures |Box(elves) - ElfSet(elves)| == Area(elves) - |elves|
  {
    BoxArea(elves);
    ElvesInBox(elves);
    ElfSetSize(elves);
    SubsetDifference(Box(elves), ElfSet(elves));
  }

  lemma BoxArea(elves: seq<Position>)
    requires elves != []
    ensures |Box(elves)| == Area(elves)
  {
    var b := Bounds(elves);
    InBounds(elves, elves[0]);
    RectangleCells(b.top, b.bottom + 1, b.left, b.right + 1);
  }

  lemma ElvesInBox(elves: seq<Position>)
    requires elves != []
    ensures ElfSet(elves) <= Box(elves)
  {
    forall p | p in ElfSet(elves)
      ensures p in Box(elves)
    {
      InBounds(elves, p);
    }
  }

  lemma SubsetDifference<T>(a: set<T>, b: set<T>)
    requires b <= a
    ensures |a - b| == |a| - |b|
  {
    assert a == (a - b) + b;
  }

  /** Row `x` of the rendering: '#' where an elf stands and '.' elsewhere,
      for columns `y0 ..= y1`. */
  function RowText(elves: seq<Position>, x: int, y0: int, y1: int): (r: string)
    requires y0 <= y1
    ensures |r| == y1 - y0 + 1
    ensures forall j | 0 <= j < |r| :: r[j] == (if (x, y0 + j) in elves then '#' else '.')
  {
    seq(y1 - y0 + 1, j requires 0 <= j => if (x, y0 + j) in elves then '#' else '.')
  }

  /** `Display`: the bounding rectangle of the elves, one line per row. The
      source panics when there are no elves. */
  function Render(elves: seq<Position>): string
    requires elves != []
  {
    var b := Bounds(elves);
    InBounds(elves, elves[0]);
    RenderRectangle(elves, b.top, b.bottom, b.left, b.right)
  }

  /** Rows `x0 ..= x1` and columns `y0 ..= y1` as text, one line per row. */
  function RenderRectangle(elves: seq<Position>, x0: int, x1: int, y0: int, y1: int): string
    requires x0 <= x1 && y0 <= y1
  {
    Join(RenderedRows(elves, x0, x1, y0, y1), '\n')
  }

  function RenderedRows(elves: seq<Position>, x0: int, x1: int, y0: int, y1: int): (r: seq<string>)
    requires x0 <= x1 && y0 <= y1
    ensures |r| == x1 - x0 + 1 && forall k | 0 <= k < |r| :: r[k] == RowText(elves, x0 + k, y0, y1)
  {
    seq(x1 - x0 + 1, k requires 0 <= k => RowText(elves, x0 + k, y0, y1))
  }

  /** The rendered rows come back as the lines of their join, and trimming
      leaves each of them as it is. */
  lemma RenderedLines(elves: seq<Position>, x0: int, x1: int, y0: int, y1: int)
    requires x0 <= x1 && y0 <= y1
    ensures Trimmed(Lines(Join(RenderedRows(elves, x0, x1, y0, y1), '\n'))) == RenderedRows(elves, x0, x1, y0, y1)
  {
    var rows := RenderedRows(elves, x0, x1, y0, y1);
    forall k | 0 <= k < |rows|
      ensures rows[k] != [] && '\n' !in rows[k] && rows[k][|rows[k]| - 1] != '\r'
      ensures Trim(rows[k]) == rows[k]
    {
      TrimOfPadded([], rows[k], []);
      assert [] + rows[k] + [] == rows[k];
    }
    LinesOfJoin(rows);
    assert Trimmed(rows) == rows;
  }

  /** Every rendered row is read back. */
  lemma RenderedValid(elves: seq<Position>, x0: int, x1: int, y0: int, y1: int)
    requires x0 <= x1 && y0 <= y1
    ensures GridElves(RenderedRows(elves, x0, x1, y0, y1)).Some?
  {
    GridValid(RenderedRows(elves, x0, x1, y0, y1));
  }

  /** Reading the rendered rows gives the cells of the rectangle that hold
      an elf, counted from its corner. */
  lemma ReadRendered(elves: seq<Position>, x0: int, x1: int, y0: int, y1: int, k: int, j: int)
    requires x0 <= x1 && y0 <= y1
    ensures GridElves(RenderedRows(elves, x0, x1, y0, y1)).Some?
    ensures (k, j) in GridElves(RenderedRows(elves, x0, x1, y0, y1)).value <==>
      0 <= k <= x1 - x0 && 0 <= j <= y1 - y0 && (x0 + k, y0 + j) in elves
  {
    var rows := RenderedRows(elves, x0, x1, y0, y1);
    RenderedValid(elves, x0, x1, y0, y1);
    if 0 <= k <= x1 - x0 && 0 <= j <= y1 - y0 && (x0 + k, y0 + j) in elves {
      GridHas(rows, k, j);
    }
    var read := GridElves(rows).value;
    if (k, j) in read {
      GridSound(rows);
      var i :| 0 <= i < |read| && read[i] == (k, j);
    }
  }

  /** Reading back the rendering of a rectangle that holds every elf gives
      the elves, counted from its corner. */
  lemma ReadRectangle(elves: seq<Position>, x0: int, x1: int, y0: int, y1: int, k: int, j: int)
    requires x0 <= x1 && y0 <= y1
    requires forall p | p in elves :: x0 <= p.0 <= x1 && y0 <= p.1 <= y1
    ensures GridElves(Trimmed(Lines(RenderRectangle(elves, x0, x1, y0, y1)))).Some?
    ensures (k, j) in GridElves(Trimmed(Lines(RenderRectangle(elves, x0, x1, y0, y1)))).value <==>
      (x0 + k, y0 + j) in elves
  {
    RenderedLines(elves, x0, x1, y0, y1);
    ReadRendered(elves, x0, x1, y0, y1, k, j);
  }

  lemma RenderIs(elves: seq<Position>)
    requires elves != []
    ensures Bounds(elves).top <= Bounds(elves).bottom && Bounds(elves).left <= Bounds(elves).right
    ensures Render(elves) == RenderRectangle(elves, Bounds(elves).top, Bounds(elves).bottom, Bounds(elves).left, Bounds(elves).right)
  {
    InBounds(elves, elves[0]);
  }

  lemma AllInBounds(elves: seq<Position>)
    requires elves != []
    ensures forall p | p in elves :: Holds(Bounds(elves), p)
  {
    BoundsHold(elves);
  }

  lemma ReadBounds(elves: seq<Position>, b: Rect, k: int, j: int)
    requires elves != [] && b.top <= b.bottom && b.left <= b.right
    requires forall p | p in elves :: Holds(b, p)
    requires Render(elves) == RenderRectangle(elves, b.top, b.bottom, b.left, b.right)
    ensures GridElves(Trimmed(Lines(Render(elves)))).Some?
    ensures (k, j) in GridElves(Trimmed(Lines(Render(elves)))).value <==> (b.top + k, b.left + j) in elves
  {
    ReadRectangle(elves, b.top, b.bottom, b.left, b.right, k, j);
  }

  /** Reading a rendering back gives the elves, moved so that the corner of
      their bounding rectangle `b` is the origin. */
  lemma RenderParse(elves: seq<Position>, b: Rect, k: int, j: int)
    requires elves != [] && b == Bounds(elves)
    ensures GridElves(Trimmed(Lines(Render(elves)))).Some?
    ensures (k, j) in GridElves(Trimmed(Lines(Render(elves)))).value <==> (b.top + k, b.left + j) in elves
  {
    RenderIs(elves);
    AllInBounds(elves);
    ReadBounds(elves, b, k, j);
  }

  lemma ExampleRows()
    ensures RenderedRows([(0, 1), (1, 2), (2, 0)], 0, 2, 0, 2) == [".#.", "..#", "#.."]
  {
    var elves := [(0, 1), (1, 2), (2, 0)];
    var rows := RenderedRows(elves, 0, 2, 0, 2);
    assert rows[0] == ".#.";
    assert rows[1] == "..#";
    assert rows[2] == "#..";
  }

  lemma ExampleBox()
    ensures Bounds([(0, 1), (1, 2), (2, 0)]) == Rect(0, 2, 0, 2)
  {
    var elves := [(0, 1), (1, 2), (2, 0)];
    assert elves[..2] == [(0, 1), (1, 2)] && elves[..2][..1] == [(0, 1)];
  }

  lemma ExampleRead()
    ensures GridElves([".#.", "..#", "#.."]) == Some([(0, 1), (1, 2), (2, 0)])
  {
    var lines := [".#.", "..#", "#.."];
    ExampleReadTwo();
    ExampleRowTwo();
    assert lines[..2] == [".#.", "..#"];
    assert [(0, 1), (1, 2)] + [(2, 0)] == [(0, 1), (1, 2), (2, 0)];
  }

  lemma ExampleReadTwo()
    ensures GridElves([".#.", "..#"]) == Some([(0, 1), (1, 2)])
  {
    var lines := [".#.", "..#"];
    ExampleReadOne();
    ExampleRowOne();
    assert lines[..1] == [".#."];
    assert [(0, 1)] + [(1, 2)] == [(0, 1), (1, 2)];
  }

  lemma ExampleReadOne()
    ensures GridElves([".#."]) == Some([(0, 1)])
  {
    ExampleRowZero();
    assert [".#."][..0] == [];
    assert [] + [(0, 1)] == [(0, 1)];
  }

  lemma ExampleRowZero()
    ensures RowElves(0, ".#.") == Some([(0, 1)])
  {
    assert ".#."[..2] == ".#" && ".#"[..1] == "." && "."[..0] == "";
    assert RowElves(0, ".") == Some([]);
    assert [] + [(0, 1)] == [(0, 1)];
    assert RowElves(0, ".#") == Some([(0, 1)]);
  }

  lemma ExampleRowOne()
    ensures RowElves(1, "..#") == Some([(1, 2)])
  {
    assert "..#"[..2] == ".." && ".."[..1] == "." && "."[..0] == "";
    assert RowElves(1, ".") == Some([]);
    assert RowElves(1, "..") == Some([]);
    assert [] + [(1, 2)] == [(1, 2)];
  }

  lemma ExampleRowTwo()
    ensures RowElves(2, "#..") == Some([(2, 0)])
  {
    assert "#.."[..2] == "#." && "#."[..1] == "#" && "#"[..0] == "";
    assert RowElves(2, "") == Some([]);
    assert [] + [(2, 0)] == [(2, 0)];
    assert RowElves(2, "#") == Some([(2, 0)]);
    assert RowElves(2, "#.") == Some([(2, 0)]);
  }

  /** The display test: the map ".#.", "..#", "#.." holds elves at (0, 1),
      (1, 2) and (2, 0), and they render back to the same text. */
  lemma DisplayExample()
    ensures GridElves(Trimmed(Lines(".#.\n..#\n#.."))) == Some([(0, 1), (1, 2), (2, 0)])
    ensures Render([(0, 1), (1, 2), (2, 0)]) == ".#.\n..#\n#.."
  {
    var rows := [".#.", "..#", "#.."];
    ExampleBox();
    ExampleRows();
    JoinThree(".#.", "..#", "#..", '\n');
    assert ".#." + ['\n'] + "..#" + ['\n'] + "#.." == ".#.\n..#\n#..";
    RenderedLines([(0, 1), (1, 2), (2, 0)], 0, 2, 0, 2);
    ExampleRead();
  }

  /** The second half moves nobody exactly when no proposal is unique: the
      elves then stand where they stood. */
  lemma MovedNone(before: seq<Position>, proposals: map<Position, Direction>, after: seq<Position>)
    requires Fits(before, proposals)
    requires |after| == |before| && forall i | 0 <= i < |before| :: after[i] == Moved(proposals, before[i])
    ensures |Moving(proposals)| == 0 <==> after == before
  {
    if |Moving(proposals)| != 0 {
      var e :| e in Moving(proposals);
      var i :| 0 <= i < |before| && before[i] == e;
      MovingChanges(before, proposals, e);
      assert after[i] != before[i];
    } else {
      forall i | 0 <= i < |before| ensures after[i] == before[i] {
        MovingChanges(before, proposals, before[i]);
      }
    }
  }

  /** The elves, the order in which they consider directions, and the
      proposals of the current round. */
  class Elves {
    var elves: seq<Position>
    const directions: array<Direction>
    var proposals: map<Position, Direction>

    predicate Valid()
      reads this, directions
    {
      directions.Length == 4 && AllCardinal(directions[..]) &&
      Distinct(elves) && Fits(elves, proposals)
    }

    /** The state `from_str` builds around the parsed positions. */
    constructor(positions: seq<Position>)
      requires Distinct(positions)
      ensures Valid() && fresh(directions)
      ensures elves == positions && directions[..] == [North, South, West, East] && proposals == map[]
    {
      elves := positions;
      directions := new Direction[][North, South, West, East];
      proposals := map[];
    }

    /** `from_str`: the elves read from a map, facing the directions in the
        order north, south, west, east, with no proposals; no result when the
        map holds a character other than '#' and '.'. */
    static method FromStr(s: string) returns (r: Option<Elves>)
      ensures r.Some? <==> GridElves(Trimmed(Lines(s))).Some?
      ensures r.Some? ==> fresh(r.value) && fresh(r.value.directions) && r.value.Valid()
      ensures r.Some? ==> r.value.elves == GridElves(Trimmed(Lines(s))).value && r.value.proposals == map[]
      ensures r.Some? ==> r.value.directions[..] == [North, South, West, East]
    {
      var parsed := ParseElves(s);
      if parsed.None? {
        return None;
      }
      GridAscending(Trimmed(Lines(s)));
      AscendingDistinct(parsed.value);
      var elves := new Elves(parsed.value);
      r := Some(elves);
    }

    /** `rotate_directions_to_consider`: shifts the array one place to the
        left and puts the first direction last. */
    method RotateDirections()
      requires Valid()
      modifies directions
      ensures Valid()
      ensures directions[..] == RotatedLeft(old(directions[..]))
    {
      var first := directions[0];
      for i := 0 to directions.Length - 1
        invariant forall j | 0 <= j < i :: directions[j] == old(directions[j + 1])
        invariant forall j | i <= j < directions.Length :: directions[j] == old(directions[j])
      {
        directions[i] := directions[i + 1];
      }
      directions[directions.Length - 1] := first;
    }

    /** `perform_first_half_of_round`: every elf with a neighbour records
        the first viable direction in the current order. */
    method PerformFirstHalf()
      requires Valid()
      modifies this
      ensures Valid()
      ensures elves == old(elves)
      ensures proposals == old(proposals) + Proposed(elves, directions[..], elves)
    {
      var dirs := directions[..];
      for i := 0 to |elves|
        invariant elves == old(elves) && Valid()
        invariant proposals == old(proposals) + Proposed(elves, dirs, elves[..i])
      {
        proposals := RecordProposal(elves, dirs, old(proposals), proposals, i);
      }
      assert elves[..|elves|] == elves;
    }

    /** One pass of the loop of `perform_first_half_of_round`: elf `i`
        records its proposal when it has a neighbour and a viable
        direction. */
    static method RecordProposal(elves: seq<Position>, dirs: seq<Direction>, ghost prior: map<Position, Direction>,
                                 proposals: map<Position, Direction>, i: nat)
        returns (proposals': map<Position, Direction>)
      requires AllCardinal(dirs) && i < |elves| && Fits(elves, proposals)
      requires proposals == prior + Proposed(elves, dirs, elves[..i])
      ensures Fits(elves, proposals')
      ensures proposals' == prior + Proposed(elves, dirs, elves[..i + 1])
    {
      var elf := elves[i];
      ghost var before := Proposed(elves, dirs, elves[..i]);
      assert elves[..i + 1][..i] == elves[..i];
      proposals' := proposals;
      if !HasNeighbour(elves, elf) {
        assert Proposed(elves, dirs, elves[..i + 1]) == before;
        return;
      }
      var proposed := FirstViable(elves, elf, dirs);
      assert proposed == Proposal(elves, dirs, elf);
      if proposed.Some? {
        assert Proposed(elves, dirs, elves[..i + 1]) == before[elf := proposed.value];
        FitsInsert(elves, proposals, elf, proposed.value);
        UnionUpdate(prior, before, elf, proposed.value);
        proposals' := proposals[elf := proposed.value];
      } else {
        assert Proposed(elves, dirs, elves[..i + 1]) == before;
      }
    }

    /** `perform_second_half_of_round`: groups the proposals by target; for
        each target with a single proposer, in unspecified order, moves that
        elf there. Returns the number of elves moved and clears the
        proposals. */
    method PerformSecondHalf() returns (moved: nat)
      requires Valid()
      modifies this
      ensures Valid()
      ensures proposals == map[]
      ensures |elves| == |old(elves)|
      ensures forall i | 0 <= i < |elves| :: elves[i] == Moved(old(proposals), old(elves)[i])
      ensures moved == |Moving(old(proposals))|
    {
      var groups := GroupByTarget(proposals);
      ghost var start := elves;
      moved := 0;
      var pending := groups.Keys;
      assert MovingOutside(proposals, pending) == {} by {
        forall e | e in proposals
          ensures Step(e, proposals[e]) in pending
        {
        }
      }
      while pending != {}
        invariant proposals == old(proposals) && start == old(elves) && Distinct(start) && Fits(start, proposals)
        invariant pending <= groups.Keys && |elves| == |start|
        invariant forall i | 0 <= i < |start| :: elves[i] == MovedOutside(proposals, pending, start[i])
        invariant moved == |MovingOutside(proposals, pending)|
        decreases |pending|
      {
        var target :| target in pending;
        elves, moved := SettleTarget(proposals, groups, start, pending, elves, moved, target);
        pending := pending - {target};
      }
      assert MovingOutside(proposals, {}) == Moving(proposals);
      forall i | 0 <= i < |start|
        ensures elves[i] == Moved(proposals, start[i])
      {
        assert elves[i] == MovedOutside(proposals, {}, start[i]);
      }
      MovedDistinct(start, proposals, elves);
      proposals := map[];
    }

    /** One step of the second loop of `perform_second_half_of_round`: a
        target with a single proposer receives that elf, found by its
        position in `elves`, and the count of moved elves grows by one. */
    static method SettleTarget(proposals: map<Position, Direction>, groups: map<Position, seq<Position>>,
                               ghost start: seq<Position>, ghost pending: set<Position>,
                               elves: seq<Position>, moved: nat, target: Position)
        returns (elves': seq<Position>, moved': nat)
      requires Grouped(proposals, groups) && target in pending && pending <= groups.Keys
      requires Distinct(start) && Fits(start, proposals) && |elves| == |start|
      requires forall i | 0 <= i < |start| :: elves[i] == MovedOutside(proposals, pending, start[i])
      requires moved == |MovingOutside(proposals, pending)|
      ensures |elves'| == |start|
      ensures forall i | 0 <= i < |start| :: elves'[i] == MovedOutside(proposals, pending - {target}, start[i])
      ensures moved' == |MovingOutside(proposals, pending - {target})|
    {
      var group := groups[target];
      TargetDone(proposals, groups, pending, target);
      elves', moved' := elves, moved;
      if |group| == 1 {
        var elf := group[0];
        ElfPresent(start, proposals, pending, elves, elf);
        var index := IndexIn(elves, elf);
        ElfIndex(start, proposals, pending, elves, elf, index);
        elves' := elves[index := target];
        moved' := moved + 1;
      }
    }

    /** The two halves of a round in `run`, from a state without
        proposals: the elves stand as `AfterRound` places them, and the
        number of elves that moved is returned. */
    method PlayRound() returns (moved: nat)
      requires Valid() && proposals == map[]
      modifies this
      ensures Valid() && proposals == map[]
      ensures elves == AfterRound(old(elves), directions[..])
      ensures moved == |Moving(Proposed(old(elves), directions[..], old(elves)))|
      ensures moved == 0 <==> elves == old(elves)
    {
      PerformFirstHalf();
      assert proposals == Proposed(elves, directions[..], elves);
      ghost var before, proposed := elves, proposals;
      moved := PerformSecondHalf();
      MovedNone(before, proposed, elves);
      AfterRoundAt(before, directions[..]);
    }

    /** The round loop of `run`, from the state `from_str` builds, cut off
        after `maxRounds` rounds: plays rounds, rotating the direction order
        after each, until one in which no elf moves, and returns its number.
        The elves then stand where that many rounds put them. */
    method RunRounds(maxRounds: nat) returns (rounds: Option<nat>)
      requires Valid() && proposals == map[] && directions[..] == InitialOrder
      modifies this, directions
      ensures Valid() && proposals == map[]
      ensures rounds.Some? ==>
        rounds.value <= maxRounds && elves == Spread(old(elves), rounds.value) &&
        SettlesIn(old(elves), rounds.value)
      ensures rounds.None? ==> KeepsMoving(old(elves), maxRounds)
    {
      ghost var start := elves;
      var round := 1;
      while round <= maxRounds
        invariant 1 <= round <= maxRounds + 1 && Valid() && proposals == map[]
        invariant directions[..] == OrderInRound(round - 1)
        invariant elves == Spread(start, round - 1)
        invariant KeepsMoving(start, round - 1)
        decreases maxRounds + 1 - round
      {
        ghost var before := elves;
        var moved := PlayRound();
        NextRound(start, round, before);
        if moved == 0 {
          return Some(round);
        }
        RotateDirections();
        round := round + 1;
      }
      return None;
    }

    /** `empty_tiles`: the cells of the elves' bounding rectangle that hold
        no elf, counted row by row. The source panics when there are no
        elves. */
    method EmptyTiles() returns (total: nat)
      requires Valid() && elves != []
      ensures total == Area(elves) - |elves|
    {
      var b := Bounds(elves);
      InBounds(elves, elves[0]);
      total := CountEmpty(elves, b.top, b.bottom, b.left, b.right);
      EmptyCellsCount(elves, b);
    }
  }

  // ------------------------------------------------------------ the rounds

  /** The order in which `from_str` sets the directions. */
  const InitialOrder: seq<Direction> := [North, South, West, East]

  /** Rotating keeps every direction cardinal. */
  lemma {:induction false} RotationsCardinal(s: seq<Direction>, k: nat)
    requires AllCardinal(s)
    ensures AllCardinal(Rotations(s, k))
  {
    if k > 0 && s != [] {
      RotationsCardinal(s, k - 1);
    }
  }

  /** The direction order in round `k + 1`: `k` rotations of the initial
      one. */
  function OrderInRound(k: nat): (r: seq<Direction>)
    ensures |r| == 4 && AllCardinal(r)
  {
    RotationsCardinal(InitialOrder, k);
    Rotations(InitialOrder, k)
  }

  /** Where the elves stand after a full round with direction order `dirs`,
      elf by elf. */
  function AfterRound(elves: seq<Position>, dirs: seq<Direction>): (r: seq<Position>)
    requires AllCardinal(dirs)
    ensures |r| == |elves|
  {
    seq(|elves|, i requires 0 <= i < |elves| => Moved(Proposed(elves, dirs, elves), elves[i]))
  }

  /** Each elf ends the round where `Moved` puts it. */
  lemma AfterRoundAt(elves: seq<Position>, dirs: seq<Direction>)
    requires AllCardinal(dirs)
    ensures forall i | 0 <= i < |elves| :: AfterRound(elves, dirs)[i] == Moved(Proposed(elves, dirs, elves), elves[i])
  {
  }

  /** The elves after `k` rounds from `start`. */
  function Spread(start: seq<Position>, k: nat): (r: seq<Position>)
    ensures |r| == |start|
  {
    if k == 0 then start else AfterRound(Spread(start, k - 1), OrderInRound(k - 1))
  }

  /** Round `k` takes the elves from where round `k - 1` left them. */
  lemma NextRound(start: seq<Position>, k: nat, before: seq<Position>)
    requires k >= 1 && before == Spread(start, k - 1)
    ensures Spread(start, k) == AfterRound(before, OrderInRound(k - 1))
  {
  }

  /** Some elf moved in each of the rounds `1 ..= n`. */
  predicate KeepsMoving(start: seq<Position>, n: nat) {
    n == 0 || (KeepsMoving(start, n - 1) && Spread(start, n) != Spread(start, n - 1))
  }

  /** `KeepsMoving` says that every round up to `n` moved an elf. */
  lemma {:induction false} KeepsMovingEach(start: seq<Position>, n: nat, k: nat)
    requires 1 <= k <= n
    ensures KeepsMoving(start, n) ==> Spread(start, k) != Spread(start, k - 1)
  {
    if k < n {
      KeepsMovingEach(start, n - 1, k);
    }
  }

  /** Round `n` is the first in which no elf moves. */
  predicate SettlesIn(start: seq<Position>, n: nat) {
    n >= 1 && Spread(start, n) == Spread(start, n - 1) && KeepsMoving(start, n - 1)
  }

  /** Once a round moves no elf, the elves have not kept moving up to any
      later round. */
  lemma SettledStops(start: seq<Position>, n: nat, m: nat)
    requires SettlesIn(start, n) && n <= m
    ensures !KeepsMoving(start, m)
  {
    KeepsMovingEach(start, m, n);
  }

  /** There is only one first round in which no elf moves. */
  lemma SettlesUnique(start: seq<Position>, n: nat, m: nat)
    requires SettlesIn(start, n) && SettlesIn(start, m)
    ensures n == m
  {
    if n < m {
      SettledStops(start, n, m - 1);
    } else if m < n {
      SettledStops(start, m, n - 1);
    }
  }

  /** `run`, with the unbounded round loop cut off after `maxRounds`
      rounds: the map is read; rounds run until one in which no elf moves;
      then the empty tiles of the bounding rectangle are counted. The result
      is that round and that count. None where the source panics (a bad
      map, no elves) and when the rounds run out. */
  method Run(input: string, maxRounds: nat) returns (r: Option<(nat, nat)>)
    ensures GridElves(Trimmed(Lines(input))).None? ==> r.None?
    ensures r.Some? ==>
      GridElves(Trimmed(Lines(input))).Some? && GridElves(Trimmed(Lines(input))).value != [] &&
      var start := GridElves(Trimmed(Lines(input))).value;
      r.value.0 <= maxRounds && SettlesIn(start, r.value.0) &&
      r.value.1 == Area(Spread(start, r.value.0)) - |start|
    ensures var g := GridElves(Trimmed(Lines(input)));
      g.Some? && g.value != [] && (exists n: nat | n <= maxRounds :: SettlesIn(g.value, n)) ==> r.Some?
  {
    var parsed := Elves.FromStr(input);
    if parsed.None? {
      return None;
    }
    var e := parsed.value;
    ghost var start := e.elves;
    var rounds := e.RunRounds(maxRounds);
    if rounds.None? || e.elves == [] {
      if rounds.None? && start != [] && exists n: nat | n <= maxRounds :: SettlesIn(start, n) {
        var n: nat :| n <= maxRounds && SettlesIn(start, n);
        SettledStops(start, n, maxRounds);
      }
      return None;
    }
    var empty := e.EmptyTiles();
    r := Some((rounds.value, empty));
  }

  /** Row `x` gains cell `(x, y)` when scanned one column further. */
  lemma RowGrows(x: int, y0: int, y: int)
    requires y0 <= y
    ensures (x, y) !in Cells(x, x + 1, y0, y)
    ensures Cells(x, x + 1, y0, y + 1) == Cells(x, x + 1, y0, y) + {(x, y)}
  {
  }

  /** The rows above `x` and row `x` are disjoint and together make the rows
      up to `x`. */
  lemma RowsGrow(x0: int, x: int, y0: int, y1: int)
    requires x0 <= x
    ensures Cells(x0, x, y0, y1) !! Cells(x, x + 1, y0, y1)
    ensures Cells(x0, x + 1, y0, y1) == Cells(x0, x, y0, y1) + Cells(x, x + 1, y0, y1)
  {
  }

  /** No cells lie in an empty range of rows or columns. */
  lemma NoCells(x0: int, x1: int, y0: int, y1: int)
    requires x1 <= x0 || y1 <= y0
    ensures Cells(x0, x1, y0, y1) == {}
  {
  }

  /** The number of columns `y0 .. y - 1` of row `x` where no elf stands. */
  function EmptyInRow(elves: seq<Position>, x: int, y0: int, y: int): nat
    decreases y - y0
  {
    if y <= y0 then 0 else EmptyInRow(elves, x, y0, y - 1) + (if (x, y - 1) in elves then 0 else 1)
  }

  /** The number of cells in rows `x0 .. x - 1` and columns `y0 .. y1 - 1`
      where no elf stands. */
  function EmptyInRows(elves: seq<Position>, x0: int, x: int, y0: int, y1: int): nat
    decreases x - x0
  {
    if x <= x0 then 0 else EmptyInRows(elves, x0, x - 1, y0, y1) + EmptyInRow(elves, x - 1, y0, y1)
  }

  /** The count of a row is the number of its cells without an elf. */
  lemma {:induction false} EmptyInRowCells(elves: seq<Position>, x: int, y0: int, y: int)
    requires y0 <= y
    ensures EmptyInRow(elves, x, y0, y) == |Cells(x, x + 1, y0, y) - ElfSet(elves)|
    decreases y - y0
  {
    if y == y0 {
      NoCells(x, x + 1, y0, y);
    } else {
      EmptyInRowCells(elves, x, y0, y - 1);
      RowGrows(x, y0, y - 1);
      CellAdded(elves, Cells(x, x + 1, y0, y - 1), (x, y - 1));
    }
  }

  /** The count of a block of rows is the number of its cells without an
      elf. */
  lemma {:induction false} EmptyInRowsCells(elves: seq<Position>, x0: int, x: int, y0: int, y1: int)
    requires x0 <= x && y0 <= y1
    ensures EmptyInRows(elves, x0, x, y0, y1) == |Cells(x0, x, y0, y1) - ElfSet(elves)|
    decreases x - x0
  {
    if x == x0 {
      NoCells(x0, x, y0, y1);
    } else {
      EmptyInRowsCells(elves, x0, x - 1, y0, y1);
      EmptyInRowCells(elves, x - 1, y0, y1);
      RowsGrow(x0, x - 1, y0, y1);
      DisjointDifference(Cells(x0, x - 1, y0, y1), Cells(x - 1, x, y0, y1), ElfSet(elves));
    }
  }

  lemma DisjointDifference<T>(a: set<T>, b: set<T>, e: set<T>)
    requires a !! b
    ensures |(a + b) - e| == |a - e| + |b - e|
  {
    assert (a + b) - e == (a - e) + (b - e);
    assert (a - e) !! (b - e);
  }

  /** The two loops of `empty_tiles`: scans rows `x0 ..= x1` and columns
      `y0 ..= y1` row by row and counts the cells where no elf stands. */
  method CountEmpty(elves: seq<Position>, x0: int, x1: int, y0: int, y1: int) returns (total: nat)
    requires x0 <= x1 && y0 <= y1
    ensures total == EmptyInRows(elves, x0, x1 + 1, y0, y1 + 1)
  {
    total := 0;
    for x := x0 to x1 + 1
      invariant total == EmptyInRows(elves, x0, x, y0, y1 + 1)
    {
      for y := y0 to y1 + 1
        invariant total == EmptyInRows(elves, x0, x, y0, y1 + 1) + EmptyInRow(elves, x, y0, y)
      {
        if (x, y) !in elves {
          total := total + 1;
        }
      }
    }
  }

  /** One more cell adds one empty cell exactly when no elf stands on it. */
  lemma CellAdded(elves: seq<Position>, cells: set<Position>, c: Position)
    requires c !in cells
    ensures |(cells + {c}) - ElfSet(elves)| == |cells - ElfSet(elves)| + (if c in elves then 0 else 1)
  {
    if c in elves {
      assert (cells + {c}) - ElfSet(elves) == cells - ElfSet(elves);
    } else {
      assert (cells + {c}) - ElfSet(elves) == (cells - ElfSet(elves)) + {c};
    }
  }

  /** Updating the right operand of a map union updates the union. */
  lemma UnionUpdate<K, V>(a: map<K, V>, b: map<K, V>, k: K, v: V)
    ensures a + b[k := v] == (a + b)[k := v]
  {
  }

  /** Recording a proposal of an elf into a free cell keeps the proposals
      fitting. */
  lemma FitsInsert(elves: seq<Position>, proposals: map<Position, Direction>, k: Position, d: Direction)
    requires Fits(elves, proposals) && k in elves && Step(k, d) !in elves
    ensures Fits(elves, proposals[k := d])
  {
  }
}
