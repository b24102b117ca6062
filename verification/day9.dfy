/** Day 9, "Rope Bridge": a rope of two knots on a grid. The head follows a
    list of moves one cell at a time; after every head step the tail catches
    up so that it touches the head again, and the cells the tail has been on
    are counted. */
module Day9Rope {
  import opened Text

  const UsizeMax: nat := 0xFFFF_FFFF_FFFF_FFFF

  /** (row, column); rows grow upwards and columns to the right. */
  type Position = (int, int)

  datatype Direction = Up | Down | Left | Right

  datatype Move = Move(direction: Direction, distance: nat)

  // ---------------------------------------------------------------- parsing

  function Letter(d: Direction): char {
    match d
    case Up => 'U'
    case Down => 'D'
    case Left => 'L'
    case Right => 'R'
  }

  /** The direction named by a letter. */
  function DirectionOf(c: char): (r: Option<Direction>)
    ensures r.Some? <==> c == 'U' || c == 'D' || c == 'L' || c == 'R'
    ensures r.Some? ==> Letter(r.value) == c
  {
    match c
    case 'U' => Some(Up)
    case 'D' => Some(Down)
    case 'L' => Some(Left)
    case 'R' => Some(Right)
    case _ => None
  }

  lemma DirectionOfLetter(d: Direction)
    ensures DirectionOf(Letter(d)) == Some(d)
  { }

  /** `Move::from_line`: the first character names the direction, the
      trimmed rest is the distance. An empty line or a first character
      that is not one byte long fails the split, and an unparsable
      distance or an unknown letter panics: all of them give `None`. */
  function ParseMove(line: string): (r: Option<Move>)
    ensures r.Some? ==> line != [] && line[0] == Letter(r.value.direction)
    ensures r.Some? ==> ParseNat(Trim(line[1..]), UsizeMax) == Some(r.value.distance)
    ensures line != [] && DirectionOf(line[0]).None? ==> r.None?
  {
    if line == [] || line[0] as int >= 0x80 then None
    else
      match ParseNat(Trim(line[1..]), UsizeMax)
      case None => None
      case Some(n) =>
        match DirectionOf(line[0])
        case None => None
        case Some(d) => Some(Move(d, n))
  }

  /** The way a move is written: the letter, a space, the distance. */
  function MoveText(m: Move): string {
    [Letter(m.direction)] + " " + NatToString(m.distance)
  }

  lemma ParseMoveText(m: Move)
    requires m.distance <= UsizeMax
    ensures ParseMove(MoveText(m)) == Some(m)
  {
    var digits := NatToString(m.distance);
    TrimSpaced(digits);
    ParseNatToString(m.distance, UsizeMax);
    ParseMoveOf(m.direction, " " + digits, m.distance);
    assert MoveText(m) == [Letter(m.direction)] + (" " + digits);
  }

  /** A line that starts with a direction letter and whose trimmed rest is
      a number parses to that move. */
  lemma ParseMoveOf(d: Direction, rest: string, n: nat)
    requires ParseNat(Trim(rest), UsizeMax) == Some(n)
    ensures ParseMove([Letter(d)] + rest) == Some(Move(d, n))
  {
    var line := [Letter(d)] + rest;
    assert line[1..] == rest;
    DirectionOfLetter(d);
  }

  /** Trimming a space off the front of a number gives the number. */
  lemma TrimSpaced(digits: string)
    requires digits != [] && AllDigits(digits)
    ensures Trim(" " + digits) == digits
  {
    assert " " + digits == " " + digits + "";
    TrimOfPadded(" ", digits, "");
  }

  /** The parsed lines, one `Option` per line. */
  function ParsedMoves(lines: seq<string>): (r: seq<Option<Move>>)
    ensures |r| == |lines| && forall i | 0 <= i < |lines| :: r[i] == ParseMove(lines[i])
  {
    seq(|lines|, i requires 0 <= i < |lines| => ParseMove(lines[i]))
  }

  /** `lines().map(Move::from_line)`: every line must parse. */
  function ParseMoves(lines: seq<string>): (r: Option<seq<Move>>)
    ensures r.Some? <==> forall i | 0 <= i < |lines| :: ParseMove(lines[i]).Some?
    ensures r.Some? ==> |r.value| == |lines|
    ensures r.Some? ==> forall i | 0 <= i < |lines| :: ParseMove(lines[i]) == Some(r.value[i])
  {
    var opts := ParsedMoves(lines);
    var r := AllSome(opts);
    assert r.Some? ==> forall i | 0 <= i < |opts| :: opts[i] == Some(r.value[i]);
    r
  }

  /** The moves written one per line parse back. */
  lemma ParseMovesText(moves: seq<Move>)
    requires forall i | 0 <= i < |moves| :: moves[i].distance <= UsizeMax
    ensures ParseMoves(Lines(Join(MoveLines(moves), '\n'))) == Some(moves)
  {
    var lines := MoveLines(moves);
    forall k | 0 <= k < |lines|
      ensures lines[k] != [] && '\n' !in lines[k] && lines[k][|lines[k]| - 1] != '\r'
      ensures ParseMove(lines[k]) == Some(moves[k])
    {
      MoveLineFacts(moves[k]);
      ParseMoveText(moves[k]);
    }
    LinesOfJoin(lines);
    var r := ParseMoves(lines);
    assert r.value == moves;
  }

  function MoveLines(moves: seq<Move>): (r: seq<string>)
    ensures |r| == |moves| && forall i | 0 <= i < |moves| :: r[i] == MoveText(moves[i])
  {
    seq(|moves|, i requires 0 <= i < |moves| => MoveText(moves[i]))
  }

  /** A written move is one line with no carriage return at its end. */
  lemma MoveLineFacts(m: Move)
    ensures MoveText(m) != [] && '\n' !in MoveText(m) && MoveText(m)[|MoveText(m)| - 1] != '\r'
  {
    var digits := NatToString(m.distance);
    var line := MoveText(m);
    assert line[|line| - 1] == digits[|digits| - 1];
    forall j | 0 <= j < |line| ensures line[j] != '\n' {
      if j >= 2 {
        assert line[j] == digits[j - 2];
      }
    }
  }

  // ------------------------------------------------------------- geometry

  /** One cell in direction `d`. */
  function Step(p: Position, d: Direction): (q: Position)
    ensures Abs(q.0 - p.0) + Abs(q.1 - p.1) == 1
    ensures q.0 != p.0 <==> d in {Up, Down}
  {
    match d
    case Up => (p.0 + 1, p.1)
    case Down => (p.0 - 1, p.1)
    case Left => (p.0, p.1 - 1)
    case Right => (p.0, p.1 + 1)
  }

  /** The two knots overlap or are neighbours, diagonals included. */
  predicate Touching(h: Position, t: Position) {
    -1 <= h.0 - t.0 <= 1 && -1 <= h.1 - t.1 <= 1
  }

  function Sign(x: int): (r: int)
    ensures -1 <= r <= 1 && (r == 0 <==> x == 0) && r * x >= 0
  {
    if x > 0 then 1 else if x < 0 then -1 else 0
  }

  /** Where the tail goes once the head has moved: nowhere while the two
      touch, otherwise one cell toward the head on each axis where they
      differ. */
  function Follow(h: Position, t: Position): Position {
    if Touching(h, t) then t else (t.0 + Sign(h.0 - t.0), t.1 + Sign(h.1 - t.1))
  }

  /** `distance_between_head_and_tail`: 1 for diagonal neighbours, the
      Manhattan distance otherwise. */
  function Distance(h: Position, t: Position): (d: nat)
    ensures d <= 1 <==> Touching(h, t)
    ensures d == 0 <==> h == t
    ensures Abs(h.0 - t.0) == 1 && Abs(h.1 - t.1) == 1 ==> d == 1
    ensures !Touching(h, t) ==> d == Abs(h.0 - t.0) + Abs(h.1 - t.1)
  {
    if (h.0 == t.0 + 1 || h.0 == t.0 - 1) && (h.1 == t.1 + 1 || h.1 == t.1 - 1) then 1
    else Abs(h.0 - t.0) + Abs(h.1 - t.1)
  }

  /** A head step away from a touching tail leaves the followed tail
      touching the head, one cell from where it was. */
  lemma FollowAfterStep(h: Position, t: Position, d: Direction)
    requires Touching(h, t)
    ensures Touching(Step(h, d), Follow(Step(h, d), t))
    ensures Touching(t, Follow(Step(h, d), t))
    ensures Follow(Step(h, d), t) != t ==> Follow(Step(h, d), t) == h
  { }

  // ------------------------------------------------------------- the rope

  class Rope {
    var head: Position
    var tail: Position

    constructor ()
      ensures head == (0, 0) && tail == (0, 0)
    {
      head := (0, 0);
      tail := (0, 0);
    }

    /** `move_head`: one cell in the move's direction; the tail stays. */
    method MoveHead(d: Direction)
      modifies this
      ensures head == Step(old(head), d) && tail == old(tail)
    {
      match d
      case Up => head := (head.0 + 1, head.1);
      case Down => head := (head.0 - 1, head.1);
      case Left => head := (head.0, head.1 - 1);
      case Right => head := (head.0, head.1 + 1);
    }

    /** `update_tail`: the tail follows the head, and where it ends up is
        recorded in `visited`. */
    method UpdateTail(visited: set<Position>) returns (visited': set<Position>)
      modifies this
      ensures head == old(head) && tail == Follow(old(head), old(tail))
      ensures visited' == visited + {tail}
    {
      if Distance(head, tail) <= 1 {
        visited' := visited + {tail};
        return;
      }
      if head.0 == tail.0 {
        if head.1 > tail.1 {
          tail := (tail.0, tail.1 + 1);
        } else {
          tail := (tail.0, tail.1 - 1);
        }
      } else if head.1 == tail.1 {
        if head.0 > tail.0 {
          tail := (tail.0 + 1, tail.1);
        } else {
          tail := (tail.0 - 1, tail.1);
        }
      } else {
        if head.0 > tail.0 {
          tail := (tail.0 + 1, tail.1);
        } else {
          tail := (tail.0 - 1, tail.1);
        }
        if head.1 > tail.1 {
          tail := (tail.0, tail.1 + 1);
        } else {
          tail := (tail.0, tail.1 - 1);
        }
      }
      visited' := visited + {tail};
    }

    /** The inner loop of `run`: `n` head steps in direction `d`, each
        followed by the tail. */
    method Repeat(d: Direction, n: nat, visited: set<Position>, ghost dirs: seq<Direction>)
      returns (visited': set<Position>, ghost dirs': seq<Direction>)
      requires (head, tail) == Knot(dirs) && visited == Visited(dirs)
      modifies this
      ensures dirs' == dirs + seq(n, _ => d)
      ensures (head, tail) == Knot(dirs') && visited' == Visited(dirs')
    {
      visited', dirs' := visited, dirs;
      for k := 0 to n
        invariant dirs' == dirs + seq(k, _ => d)
        invariant (head, tail) == Knot(dirs') && visited' == Visited(dirs')
      {
        MoveHead(d);
        visited' := UpdateTail(visited');
        KnotSnoc(dirs', d);
        VisitedSnoc(dirs', d);
        RepeatSnoc(dirs, d, k);
        dirs' := dirs' + [d];
      }
    }
  }

  // -------------------------------------------------------- specification

  /** The single head steps of the moves, in order. */
  function Expand(moves: seq<Move>): seq<Direction>
    decreases |moves|
  {
    if moves == [] then []
    else
      var m := moves[|moves| - 1];
      Expand(moves[..|moves| - 1]) + seq(m.distance, _ => m.direction)
  }

  /** Head and tail after the steps `dirs`, both starting at the origin. */
  function Knot(dirs: seq<Direction>): (Position, Position)
    decreases |dirs|
  {
    if dirs == [] then ((0, 0), (0, 0))
    else
      var before := Knot(dirs[..|dirs| - 1]);
      var h := Step(before.0, dirs[|dirs| - 1]);
      (h, Follow(h, before.1))
  }

  /** The cells the tail is on after each of the steps. */
  function Visited(dirs: seq<Direction>): set<Position> {
    set k | 1 <= k <= |dirs| :: Knot(dirs[..k]).1
  }

  lemma VisitedSnoc(dirs: seq<Direction>, d: Direction)
    ensures Visited(dirs + [d]) == Visited(dirs) + {Knot(dirs + [d]).1}
  {
    var s := dirs + [d];
    assert s[..|s|] == s;
    forall k | 1 <= k <= |dirs| ensures s[..k] == dirs[..k] { }
  }

  lemma KnotSnoc(dirs: seq<Direction>, d: Direction)
    ensures Knot(dirs + [d]).0 == Step(Knot(dirs).0, d)
    ensures Knot(dirs + [d]).1 == Follow(Knot(dirs + [d]).0, Knot(dirs).1)
  {
    assert (dirs + [d])[..|dirs|] == dirs;
  }

  lemma RepeatSnoc(dirs: seq<Direction>, d: Direction, k: nat)
    ensures dirs + seq(k, _ => d) + [d] == dirs + seq(k + 1, _ => d)
  { }

  /** Head and tail touch after every step. */
  lemma {:induction false} KnotTouching(dirs: seq<Direction>)
    ensures Touching(Knot(dirs).0, Knot(dirs).1)
    decreases |dirs|
  {
    if dirs != [] {
      var before := Knot(dirs[..|dirs| - 1]);
      KnotTouching(dirs[..|dirs| - 1]);
      FollowAfterStep(before.0, before.1, dirs[|dirs| - 1]);
    }
  }

  function Count(dirs: seq<Direction>, d: Direction): (n: nat)
    ensures n <= |dirs|
  {
    if dirs == [] then 0
    else Count(dirs[..|dirs| - 1], d) + (if dirs[|dirs| - 1] == d then 1 else 0)
  }

  /** The head is where the steps add up to: ups minus downs, rights minus
      lefts. */
  lemma {:induction false} HeadDisplacement(dirs: seq<Direction>)
    ensures Knot(dirs).0 == (Count(dirs, Up) - Count(dirs, Down), Count(dirs, Right) - Count(dirs, Left))
    decreases |dirs|
  {
    if dirs != [] {
      HeadDisplacement(dirs[..|dirs| - 1]);
    }
  }

  /** The first step leaves the tail on the origin, so the origin is always
      counted once the rope has moved. */
  lemma OriginVisited(dirs: seq<Direction>)
    requires dirs != []
    ensures (0, 0) in Visited(dirs)
  {
    assert dirs[..1][..0] == [];
    assert Knot(dirs[..1]).1 == (0, 0);
  }

  lemma ExpandSnoc(moves: seq<Move>, i: nat)
    requires i < |moves|
    ensures Expand(moves[..i + 1]) == Expand(moves[..i]) + seq(moves[i].distance, _ => moves[i].direction)
  {
    assert moves[..i + 1][..i] == moves[..i];
  }

  // -------------------------------------------------------------- the run

  /** The two nested loops of `run`: every move, one head step at a time,
      each followed by the tail. The result is the number of cells the tail
      visited. */
  method Simulate(moves: seq<Move>) returns (count: nat)
    ensures count == |Visited(Expand(moves))|
  {
    var visited: set<Position> := {};
    var rope := new Rope();
    ghost var dirs: seq<Direction> := [];
    for i := 0 to |moves|
      invariant dirs == Expand(moves[..i])
      invariant (rope.head, rope.tail) == Knot(dirs)
      invariant visited == Visited(dirs)
    {
      visited, dirs := rope.Repeat(moves[i].direction, moves[i].distance, visited, dirs);
      ExpandSnoc(moves, i);
    }
    assert moves[..|moves|] == moves;
    count := |visited|;
  }

  /** `run` on the puzzle text: `None` where a line makes it panic. */
  method Run(input: string) returns (count: Option<nat>)
    ensures ParseMoves(Lines(input)).None? ==> count.None?
    ensures ParseMoves(Lines(input)).Some? ==> count == Some(|Visited(Expand(ParseMoves(Lines(input)).value))|)
  {
    var moves := ParseMoves(Lines(input));
    if moves.None? {
      return None;
    }
    var n := Simulate(moves.value);
    count := Some(n);
  }
}
