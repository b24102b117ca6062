/** Day 22, "Monkey Map": a walker on a board of open tiles and walls,
    following a path of moves and turns. A step off the board, or onto the
    blank area around it, wraps round to the far end of the same row or
    column; the final password encodes where the walk ends. */
module Day22Board {
  import opened Text

  const I32Max: nat := 0x7FFF_FFFF

  // ------------------------------------------------------------- directions

  datatype Direction = North | East | South | West

  /** `to_password`: the facing value, counting clockwise from East. */
  function Facing(d: Direction): (f: nat)
    ensures f < 4
  {
    match d
    case East => 0
    case South => 1
    case West => 2
    case North => 3
  }

  /** The facing value tells directions apart. */
  lemma FacingInjective(d: Direction, e: Direction)
    requires Facing(d) == Facing(e)
    ensures d == e
  {
  }

  /** `turn_right`: a quarter turn clockwise, one facing value up. */
  function TurnRight(d: Direction): (r: Direction)
    ensures Facing(r) == (Facing(d) + 1) % 4
  {
    match d
    case North => East
    case East => South
    case South => West
    case West => North
  }

  /** `turn_left`: a quarter turn anticlockwise, one facing value down. */
  function TurnLeft(d: Direction): (r: Direction)
    ensures Facing(r) == (Facing(d) + 3) % 4
  {
    match d
    case North => West
    case East => North
    case South => East
    case West => South
  }

  /** Turning left undoes turning right and back, and four turns the same
      way face the original direction again. */
  lemma TurnsAreInverse(d: Direction)
    ensures TurnLeft(TurnRight(d)) == d && TurnRight(TurnLeft(d)) == d
    ensures TurnRight(TurnRight(TurnRight(TurnRight(d)))) == d
    ensures TurnLeft(TurnLeft(TurnLeft(TurnLeft(d)))) == d
  {
    FacingInjective(TurnLeft(TurnRight(d)), d);
    FacingInjective(TurnRight(TurnLeft(d)), d);
    FacingInjective(TurnRight(TurnRight(TurnRight(TurnRight(d)))), d);
    FacingInjective(TurnLeft(TurnLeft(TurnLeft(TurnLeft(d)))), d);
  }

  // ------------------------------------------------------------------ cells

  datatype Cell = Empty | Space | Wall

  predicate IsCellChar(c: char) {
    c == '.' || c == '#' || c == ' '
  }

  /** `Cell::from_char`: any other character is unreachable. */
  function FromChar(c: char): Cell
    requires IsCellChar(c)
  {
    match c
    case '.' => Space
    case '#' => Wall
    case _ => Empty
  }

  /** How the puzzle draws a cell. */
  function CellChar(cell: Cell): (c: char)
    ensures IsCellChar(c)
  {
    match cell
    case Space => '.'
    case Wall => '#'
    case Empty => ' '
  }

  /** `from_char` and the drawing are inverse. */
  lemma FromCharRoundTrip(cell: Cell, c: char)
    requires IsCellChar(c)
    ensures FromChar(CellChar(cell)) == cell
    ensures CellChar(FromChar(c)) == c
  {
  }

  /** `is_some`: every cell but the blank one is on the board. */
  function IsSome(cell: Cell): (b: bool)
    ensures b <==> cell != Empty
  {
    match cell
    case Empty => false
    case _ => true
  }

  // ------------------------------------------------------------------- grid

  type Pos = (nat, nat)
  type Grid = seq<seq<Cell>>

  /** Every row has the same, non-zero, width. */
  predicate Rectangular(g: Grid) {
    |g| > 0 && |g[0]| > 0 && forall r | 0 <= r < |g| :: |g[r]| == |g[0]|
  }

  predicate OnGrid(g: Grid, p: Pos) {
    p.0 < |g| && p.1 < |g[p.0]|
  }

  /** A position a walker may stand on: an open tile. */
  predicate Open(g: Grid, p: Pos) {
    OnGrid(g, p) && g[p.0][p.1] == Space
  }

  /** `position(is_some)` on a row: the first cell on the board. */
  function FirstInRow(row: seq<Cell>): (c: nat)
    requires exists i | 0 <= i < |row| :: row[i] != Empty
    ensures c < |row| && row[c] != Empty
    ensures forall i | 0 <= i < c :: row[i] == Empty
  {
    if row[0] != Empty then 0
    else
      assert exists i | 0 <= i < |row[1..]| :: row[1..][i] != Empty by {
        var i :| 0 <= i < |row| && row[i] != Empty;
        assert row[1..][i - 1] != Empty;
      }
      1 + FirstInRow(row[1..])
  }

  /** `rposition(is_some)` on a row: the last cell on the board. */
  function LastInRow(row: seq<Cell>): (c: nat)
    requires exists i | 0 <= i < |row| :: row[i] != Empty
    ensures c < |row| && row[c] != Empty
    ensures forall i | c < i < |row| :: row[i] == Empty
  {
    if row[|row| - 1] != Empty then |row| - 1
    else
      var front := row[..|row| - 1];
      assert exists i | 0 <= i < |front| :: front[i] != Empty by {
        var i :| 0 <= i < |row| && row[i] != Empty;
        assert front[i] != Empty;
      }
      LastInRow(front)
  }

  /** Column `c` of the grid, top to bottom. */
  function Column(g: Grid, c: nat): (col: seq<Cell>)
    requires Rectangular(g) && c < |g[0]|
    ensures |col| == |g| && forall r | 0 <= r < |g| :: col[r] == g[r][c]
  {
    seq(|g|, r requires 0 <= r < |g| => g[r][c])
  }

  /** The neighbouring position in direction `d`, if it is on the grid. */
  function Ahead(g: Grid, p: Pos, d: Direction): (q: Option<Pos>)
    requires Rectangular(g) && OnGrid(g, p)
    ensures q.Some? ==> OnGrid(g, q.value)
  {
    match d
    case East => if p.1 + 1 < |g[p.0]| then Some((p.0, p.1 + 1)) else None
    case West => if p.1 > 0 then Some((p.0, p.1 - 1)) else None
    case North => if p.0 > 0 then Some((p.0 - 1, p.1)) else None
    case South => if p.0 + 1 < |g| then Some((p.0 + 1, p.1)) else None
  }

  /** Where a step that leaves the board re-enters it: the first board cell
      from the far end of the same row or column. */
  function WrapTarget(g: Grid, p: Pos, d: Direction): (q: Pos)
    requires Rectangular(g) && Open(g, p)
    ensures OnGrid(g, q) && g[q.0][q.1] != Empty
    ensures d == East || d == West ==> q.0 == p.0
    ensures d == North || d == South ==> q.1 == p.1
  {
    var row := g[p.0];
    assert row[p.1] != Empty;
    match d
    case East => (p.0, FirstInRow(row))
    case West => (p.0, LastInRow(row))
    case North =>
      var col := Column(g, p.1);
      assert col[p.0] != Empty;
      (LastInRow(col), p.1)
    case South =>
      var col := Column(g, p.1);
      assert col[p.0] != Empty;
      (FirstInRow(col), p.1)
  }

  /** `move_forward`: one step from an open tile. A next cell that is open
      is entered; a wall stops the walker; past the edge or onto a blank
      cell the walker wraps, unless the wrap target is a wall. */
  function Step(g: Grid, p: Pos, d: Direction): (q: Pos)
    requires Rectangular(g) && Open(g, p)
    ensures Open(g, q)
    ensures Ahead(g, p, d).Some? && g[Ahead(g, p, d).value.0][Ahead(g, p, d).value.1] == Space ==>
              q == Ahead(g, p, d).value
    ensures Ahead(g, p, d).Some? && g[Ahead(g, p, d).value.0][Ahead(g, p, d).value.1] == Wall ==> q == p
    ensures (Ahead(g, p, d).None? || g[Ahead(g, p, d).value.0][Ahead(g, p, d).value.1] == Empty) ==>
              q == (if g[WrapTarget(g, p, d).0][WrapTarget(g, p, d).1] == Space then WrapTarget(g, p, d) else p)
  {
    var next := match Ahead(g, p, d)
                case Some(a) => g[a.0][a.1]
                case None => Empty;
    match next
    case Space => Ahead(g, p, d).value
    case Wall => p
    case Empty =>
      var w := WrapTarget(g, p, d);
      if g[w.0][w.1] == Space then w else p
  }

  /** A step moves along the row when facing East or West, and along the
      column when facing North or South. */
  lemma StepStaysInLine(g: Grid, p: Pos, d: Direction)
    requires Rectangular(g) && Open(g, p)
    ensures d == East || d == West ==> Step(g, p, d).0 == p.0
    ensures d == North || d == South ==> Step(g, p, d).1 == p.1
  {
  }

  /** `move_`: `n` single steps. */
  function Walk(g: Grid, p: Pos, d: Direction, n: nat): (q: Pos)
    requires Rectangular(g) && Open(g, p)
    ensures Open(g, q)
    decreases n
  {
    if n == 0 then p else Walk(g, Step(g, p, d), d, n - 1)
  }

  /** Walking `n` steps then one more is walking `n + 1` steps. */
  lemma {:induction false} WalkOneMore(g: Grid, p: Pos, d: Direction, n: nat)
    requires Rectangular(g) && Open(g, p)
    ensures Walk(g, p, d, n + 1) == Step(g, Walk(g, p, d, n), d)
    decreases n
  {
    if n > 0 {
      WalkOneMore(g, Step(g, p, d), d, n - 1);
    }
  }

  datatype Instruction = TurnLeftInstr | TurnRightInstr | Forward(n: nat)

  /** `apply_instruction`: a turn changes only the direction, a move only
      the position. */
  function Applied(g: Grid, p: Pos, d: Direction, ins: Instruction): (r: (Pos, Direction))
    requires Rectangular(g) && Open(g, p)
    ensures Open(g, r.0)
    ensures !ins.Forward? ==> r.0 == p
    ensures ins.Forward? ==> r.1 == d
  {
    match ins
    case TurnLeftInstr => (p, TurnLeft(d))
    case TurnRightInstr => (p, TurnRight(d))
    case Forward(n) => (Walk(g, p, d, n), d)
  }

  /** The position and direction after a whole path of instructions. */
  function Followed(g: Grid, p: Pos, d: Direction, path: seq<Instruction>): (r: (Pos, Direction))
    requires Rectangular(g) && Open(g, p)
    ensures Open(g, r.0)
  {
    if path == [] then (p, d)
    else
      var before := Followed(g, p, d, path[..|path| - 1]);
      Applied(g, before.0, before.1, path[|path| - 1])
  }

  /** `password`: 1000 times the row plus 4 times the column (both counted
      from 1) plus the facing. */
  function Password(p: Pos, d: Direction): nat {
    1000 * (p.0 + 1) + 4 * (p.1 + 1) + Facing(d)
  }

  /** On boards narrower than 249 columns the password gives back the row,
      the column and the facing. */
  lemma PasswordDecodes(p: Pos, d: Direction)
    requires p.1 < 248
    ensures Password(p, d) / 1000 == p.0 + 1
    ensures (Password(p, d) % 1000) / 4 == p.1 + 1
    ensures Password(p, d) % 4 == Facing(d)
  {
    var low := 4 * (p.1 + 1) + Facing(d);
    DivModUnique(Password(p, d), 1000, p.0 + 1, low);
    DivModUnique(low, 4, p.1 + 1, Facing(d));
    DivModUnique(Password(p, d), 4, 250 * (p.0 + 1) + p.1 + 1, Facing(d));
  }

  // ------------------------------------------------------------------ board

  /** `Board`: the grid, fixed once parsed, and the walker's position and
      direction. */
  class Board {
    const grid: Grid
    var position: Pos
    var direction: Direction

    ghost predicate Valid()
      reads this
    {
      Rectangular(grid) && Open(grid, position)
    }

    /** A fresh board faces East from its start tile. */
    constructor (g: Grid, start: Pos)
      requires Rectangular(g) && Open(g, start)
      ensures Valid() && grid == g && position == start && direction == East
    {
      grid := g;
      position := start;
      direction := East;
    }

    /** `apply_instruction`. */
    method ApplyInstruction(ins: Instruction)
      requires Valid()
      modifies this
      ensures Valid()
      ensures (position, direction) == Applied(grid, old(position), old(direction), ins)
    {
      match ins
      case TurnLeftInstr => direction := TurnLeft(direction);
      case TurnRightInstr => direction := TurnRight(direction);
      case Forward(n) => Move(n);
    }

    /** The loop of `run` over the path. */
    method Follow(path: seq<Instruction>)
      requires Valid()
      modifies this
      ensures Valid()
      ensures (position, direction) == Followed(grid, old(position), old(direction), path)
    {
      ghost var p0, d0 := position, direction;
      for i := 0 to |path|
        invariant Valid()
        invariant (position, direction) == Followed(grid, p0, d0, path[..i])
      {
        assert path[..i + 1][..i] == path[..i];
        ApplyInstruction(path[i]);
      }
      assert path[..|path|] == path;
    }

    /** `move_`: a loop of `move_forward`. */
    method Move(count: nat)
      requires Valid()
      modifies this
      ensures Valid() && direction == old(direction)
      ensures position == Walk(grid, old(position), direction, count)
    {
      ghost var start := position;
      for i := 0 to count
        invariant Valid() && direction == old(direction)
        invariant position == Walk(grid, start, direction, i)
      {
        WalkOneMore(grid, start, direction, i);
        MoveForward();
      }
    }

    /** `move_forward`. */
    method MoveForward()
      requires Valid()
      modifies this
      ensures Valid() && direction == old(direction)
      ensures position == Step(grid, old(position), direction)
    {
      position := Step(grid, position, direction);
    }

    /** `password` of the current position and direction. */
    function CurrentPassword(): (pw: nat)
      reads this
      requires Valid()
      ensures pw % 4 == Facing(direction)
    {
      var p := position;
      DivModUnique(Password(p, direction), 4, 250 * (p.0 + 1) + p.1 + 1, Facing(direction));
      Password(p, direction)
    }
  }

  // --------------------------------------------------------- board parsing

  /** The length of the longest line (`map(str::len).max()`). */
  function MaxLength(lines: seq<string>): (m: nat)
    ensures forall i | 0 <= i < |lines| :: |lines[i]| <= m
    ensures lines != [] ==> exists i | 0 <= i < |lines| :: |lines[i]| == m
  {
    if lines == [] then 0
    else
      var m := MaxLength(lines[..|lines| - 1]);
      var last := |lines[|lines| - 1]|;
      assert forall i | 0 <= i < |lines| - 1 :: lines[i] == lines[..|lines| - 1][i];
      if last > m then last else m
  }

  /** Every character of every line draws a cell. */
  predicate AllCellChars(lines: seq<string>) {
    forall r, c | 0 <= r < |lines| && 0 <= c < |lines[r]| :: IsCellChar(lines[r][c])
  }

  /** The cell drawn at column `c` of a line; blank past its end. */
  function CellAt(line: string, c: nat): Cell
    requires forall i | 0 <= i < |line| :: IsCellChar(line[i])
  {
    if c < |line| then FromChar(line[c]) else Empty
  }

  /** `g` is the drawing `lines` with every row padded with blank cells to
      `width`. */
  ghost predicate Drawn(g: Grid, lines: seq<string>, width: nat)
    requires AllCellChars(lines)
  {
    |g| == |lines| &&
    (forall r | 0 <= r < |g| :: |g[r]| == width) &&
    forall r, c | 0 <= r < |g| && 0 <= c < width :: g[r][c] == CellAt(lines[r], c)
  }

  /** `p` is the first open tile of `g` in reading order. */
  ghost predicate FirstOpen(g: Grid, p: Pos) {
    Open(g, p) &&
    forall r, c | 0 <= r < |g| && 0 <= c < |g[r]| && (r < p.0 || (r == p.0 && c < p.1)) :: g[r][c] != Space
  }

  /** `Board::from_str`: the grid of the drawing, padded to the longest
      line, and the first open tile in reading order. None where the source
      panics: no lines, an unexpected character, or no open tile. */
  method ParseGrid(s: string) returns (r: Option<(Grid, Pos)>)
    ensures r.Some? <==> Lines(s) != [] && AllCellChars(Lines(s)) && HasOpenChar(Lines(s))
    ensures r.Some? ==> Rectangular(r.value.0) && Drawn(r.value.0, Lines(s), MaxLength(Lines(s))) &&
                        FirstOpen(r.value.0, r.value.1)
  {
    var lines := Lines(s);
    if lines == [] {
      return None;
    }
    var width := MaxLength(lines);
    var g: Grid := [];
    var start: Option<Pos> := None;
    for row := 0 to |lines|
      invariant AllCellChars(lines[..row])
      invariant Drawn(g, lines[..row], width)
      invariant start.None? ==> NoOpen(g)
      invariant start.Some? ==> FirstOpen(g, start.value)
    {
      var parsed := ParseRow(lines[row], width);
      if parsed.None? {
        NotAllCellChars(lines, row);
        return None;
      }
      var (cells, first) := parsed.value;
      ghost var g0 := g;
      g := g + [cells];
      GrowDrawn(g0, lines, row, width, cells);
      if start.None? && first.Some? {
        start := Some((row, first.value));
        FirstOpenInNewRow(g0, cells, first.value);
      } else if start.Some? {
        FirstOpenKept(g0, cells, start.value);
      } else {
        NoOpenKept(g0, cells);
      }
    }
    assert lines[..|lines|] == lines;
    if start.None? {
      NoOpenNoChar(g, lines, width);
      return None;
    }
    OpenHasChar(g, lines, width, start.value);
    SomeOpenGridIsWide(g, start.value);
    return Some((g, start.value));
  }

  /** Some line draws an open tile. */
  predicate HasOpenChar(lines: seq<string>) {
    exists r, c | 0 <= r < |lines| && 0 <= c < |lines[r]| :: lines[r][c] == '.'
  }

  ghost predicate NoOpen(g: Grid) {
    forall r, c | 0 <= r < |g| && 0 <= c < |g[r]| :: g[r][c] != Space
  }

  /** The inner loop of `Board::from_str`: one row, padded with blank cells
      to `width`, and the column of its first open tile. None when the line
      holds a character that draws no cell. */
  method ParseRow(line: string, width: nat) returns (r: Option<(seq<Cell>, Option<nat>)>)
    requires |line| <= width
    ensures r.Some? <==> forall i | 0 <= i < |line| :: IsCellChar(line[i])
    ensures r.Some? ==> |r.value.0| == width && forall c | 0 <= c < width :: r.value.0[c] == CellAt(line, c)
    ensures r.Some? && r.value.1.Some? ==>
              r.value.1.value < width && r.value.0[r.value.1.value] == Space &&
              forall c | 0 <= c < r.value.1.value :: r.value.0[c] != Space
    ensures r.Some? && r.value.1.None? ==> forall c | 0 <= c < width :: r.value.0[c] != Space
  {
    var cells: seq<Cell> := [];
    var first: Option<nat> := None;
    for col := 0 to width
      invariant forall i | 0 <= i < |line| && i < col :: IsCellChar(line[i])
      invariant |cells| == col
      invariant forall i | 0 <= i < col && i < |line| :: cells[i] == FromChar(line[i])
      invariant forall i | |line| <= i < col :: cells[i] == Empty
      invariant first.Some? ==> first.value < col && cells[first.value] == Space &&
                                forall c | 0 <= c < first.value :: cells[c] != Space
      invariant first.None? ==> forall c | 0 <= c < col :: cells[c] != Space
    {
      var cell := Empty;
      if col < |line| {
        if !IsCellChar(line[col]) {
          return None;
        }
        cell := FromChar(line[col]);
      }
      if cell == Space && first.None? {
        first := Some(col);
      }
      cells := cells + [cell];
    }
    return Some((cells, first));
  }

  lemma NotAllCellChars(lines: seq<string>, row: nat)
    requires row < |lines| && !forall i | 0 <= i < |lines[row]| :: IsCellChar(lines[row][i])
    ensures !AllCellChars(lines)
  {
  }

  lemma GrowDrawn(g: Grid, lines: seq<string>, row: nat, width: nat, cells: seq<Cell>)
    requires row < |lines| && AllCellChars(lines[..row]) && Drawn(g, lines[..row], width)
    requires forall i | 0 <= i < |lines[row]| :: IsCellChar(lines[row][i])
    requires |cells| == width && forall c | 0 <= c < width :: cells[c] == CellAt(lines[row], c)
    ensures AllCellChars(lines[..row + 1]) && Drawn(g + [cells], lines[..row + 1], width)
  {
    assert lines[..row + 1] == lines[..row] + [lines[row]];
  }

  lemma FirstOpenInNewRow(g: Grid, cells: seq<Cell>, col: nat)
    requires NoOpen(g) && col < |cells| && cells[col] == Space
    requires forall c | 0 <= c < col :: cells[c] != Space
    ensures FirstOpen(g + [cells], (|g|, col))
  {
  }

  lemma FirstOpenKept(g: Grid, cells: seq<Cell>, p: Pos)
    requires FirstOpen(g, p)
    ensures FirstOpen(g + [cells], p)
  {
  }

  lemma NoOpenKept(g: Grid, cells: seq<Cell>)
    requires NoOpen(g) && forall c | 0 <= c < |cells| :: cells[c] != Space
    ensures NoOpen(g + [cells])
  {
  }

  lemma NoOpenNoChar(g: Grid, lines: seq<string>, width: nat)
    requires AllCellChars(lines) && Drawn(g, lines, width) && NoOpen(g)
    requires forall i | 0 <= i < |lines| :: |lines[i]| <= width
    ensures !HasOpenChar(lines)
  {
    forall r, c | 0 <= r < |lines| && 0 <= c < |lines[r]| ensures lines[r][c] != '.' {
      assert g[r][c] == CellAt(lines[r], c);
    }
  }

  lemma OpenHasChar(g: Grid, lines: seq<string>, width: nat, p: Pos)
    requires AllCellChars(lines) && Drawn(g, lines, width) && Open(g, p)
    ensures HasOpenChar(lines)
  {
    assert g[p.0][p.1] == CellAt(lines[p.0], p.1);
    assert p.1 < |lines[p.0]| && lines[p.0][p.1] == '.';
  }

  lemma SomeOpenGridIsWide(g: Grid, p: Pos)
    requires Open(g, p) && forall r | 0 <= r < |g| :: |g[r]| == |g[p.0]|
    ensures Rectangular(g)
  {
  }

  // --------------------------------------------------------- path parsing

  /** The number of decimal digits at the start of `s`. */
  function DigitRun(s: string): (n: nat)
    ensures n <= |s| && AllDigits(s[..n])
    ensures n < |s| ==> !IsDigit(s[n])
  {
    if s == [] || !IsDigit(s[0]) then 0
    else
      var n := DigitRun(s[1..]);
      assert s[..n + 1] == [s[0]] + s[1..][..n];
      n + 1
  }

  /** `parse_next_int`: split before the first non-digit and read the
      digits as an `i32`; None (the `ParseIntError`) when there are no
      digits or they overflow. */
  function ParseNextInt(s: string): (r: Option<(nat, string)>)
    ensures r.Some? ==>
              var k := |s| - |r.value.1|;
              0 < k <= |s| && AllDigits(s[..k]) && r.value.0 == DigitsValue(s[..k]) &&
              r.value.0 <= I32Max && r.value.1 == s[k..] && (r.value.1 == [] || !IsDigit(r.value.1[0]))
  {
    var k := DigitRun(s);
    if k == 0 || DigitsValue(s[..k]) > I32Max then None
    else Some((DigitsValue(s[..k]), s[k..]))
  }

  /** The digits of a number followed by a non-digit split off exactly. */
  lemma ParseNextIntOfText(n: nat, rest: string)
    requires n <= I32Max && (rest == [] || !IsDigit(rest[0]))
    ensures ParseNextInt(NatToString(n) + rest) == Some((n, rest))
  {
    var t := NatToString(n);
    DigitRunOfDigits(t, rest);
    assert (t + rest)[..|t|] == t && (t + rest)[|t|..] == rest;
    NatToStringValue(n);
  }

  lemma {:induction false} DigitRunOfDigits(t: string, rest: string)
    requires AllDigits(t) && (rest == [] || !IsDigit(rest[0]))
    ensures DigitRun(t + rest) == |t|
  {
    if t != [] {
      assert (t + rest)[1..] == t[1..] + rest;
      DigitRunOfDigits(t[1..], rest);
    } else {
      assert t + rest == rest;
    }
  }

  /** The test of `parse_next_int`: "123,456" gives 123 and ",456". */
  lemma ParseNextIntExample()
    ensures ParseNextInt("123,456") == Some((123, ",456"))
  {
    ParseNextIntOfText(123, ",456");
    assert NatToString(123) == "123";
    assert "123" + ",456" == "123,456";
  }

  /** Instructions read from the front of `s`: 'L' and 'R' are turns,
      anything else must start a number. */
  function Instructions(s: string): (r: Option<seq<Instruction>>)
    decreases |s|
  {
    if s == [] then Some([])
    else if s[0] == 'L' then Prepend(TurnLeftInstr, Instructions(s[1..]))
    else if s[0] == 'R' then Prepend(TurnRightInstr, Instructions(s[1..]))
    else
      match ParseNextInt(s)
      case None => None
      case Some((n, rest)) => Prepend(Forward(n), Instructions(rest))
  }

  function Prepend(ins: Instruction, r: Option<seq<Instruction>>): Option<seq<Instruction>> {
    match r
    case None => None
    case Some(tail) => Some([ins] + tail)
  }

  /** How the puzzle writes a path. */
  function PathText(path: seq<Instruction>): string {
    if path == [] then [] else InstructionText(path[0]) + PathText(path[1..])
  }

  /** A turn is its letter, a move its number in decimal. */
  function InstructionText(ins: Instruction): string {
    match ins
    case TurnLeftInstr => "L"
    case TurnRightInstr => "R"
    case Forward(n) => NatToString(n)
  }

  /** A path the puzzle can write: numbers fit in an `i32` and two moves
      never follow each other (their digits would run together). */
  predicate Writable(path: seq<Instruction>) {
    (forall i | 0 <= i < |path| :: path[i].Forward? ==> path[i].n <= I32Max) &&
    forall i | 0 <= i < |path| - 1 :: !(path[i].Forward? && path[i + 1].Forward?)
  }

  /** Parsing the text of a writable path gives the path back. */
  lemma {:induction false} InstructionsOfText(path: seq<Instruction>)
    requires Writable(path)
    ensures Instructions(PathText(path)) == Some(path)
    decreases |path|
  {
    if path != [] {
      var tail := path[1..];
      assert Writable(tail) by {
        forall i | 0 <= i < |tail| - 1 ensures !(tail[i].Forward? && tail[i + 1].Forward?) {
          assert tail[i] == path[i + 1] && tail[i + 1] == path[i + 2];
        }
      }
      InstructionsOfText(tail);
      assert path == [path[0]] + tail;
      assert PathText(path) == InstructionText(path[0]) + PathText(tail);
      match path[0]
      case TurnLeftInstr =>
        assert ("L" + PathText(tail))[1..] == PathText(tail);
      case TurnRightInstr =>
        assert ("R" + PathText(tail))[1..] == PathText(tail);
      case Forward(n) =>
        TextAfterMove(path);
        ParseNextIntOfText(n, PathText(tail));
        var t := NatToString(n) + PathText(tail);
        assert IsDigit(NatToString(n)[0]) && t[0] == NatToString(n)[0];
    }
  }

  /** The test of `parse_instructions`: "10R5L5R10L4R5L5" reads as seven
      moves with turns between them. */
  lemma ParseInstructionsExample()
    ensures Instructions("10R5L5R10L4R5L5") == Some(ExamplePath())
  {
    ExamplePathText();
    ExamplePathWritable();
    InstructionsOfText(ExamplePath());
  }

  /** The path the test expects. */
  function ExamplePath(): seq<Instruction> {
    [Forward(10), TurnRightInstr, Forward(5), TurnLeftInstr] +
    [Forward(5), TurnRightInstr, Forward(10), TurnLeftInstr] +
    [Forward(4), TurnRightInstr, Forward(5), TurnLeftInstr, Forward(5)]
  }

  /** The example path is written "10R5L5R10L4R5L5". */
  lemma ExamplePathText()
    ensures PathText(ExamplePath()) == "10R5L5R10L4R5L5"
  {
    var path := ExamplePath();
    assert NatToString(10) == "10" && NatToString(5) == "5" && NatToString(4) == "4";
    var k := |path|;
    while k > 0
      invariant 0 <= k <= |path|
      invariant PathText(path[k..]) == "10R5L5R10L4R5L5"[PathTextStart(k)..]
    {
      k := k - 1;
      assert path[k..][1..] == path[k + 1..];
    }
  }

  /** Where the text of `ExamplePath()[k..]` starts in the example. */
  function PathTextStart(k: nat): nat
    requires k <= 13
  {
    [0, 2, 3, 4, 5, 6, 7, 9, 10, 11, 12, 13, 14, 15][k]
  }

  /** Moves and turns alternate in the example path. */
  lemma ExamplePathWritable()
    ensures Writable(ExamplePath())
  {
    var path := ExamplePath();
    forall i | 0 <= i < |path| - 1 ensures !(path[i].Forward? && path[i + 1].Forward?) {
      assert path[i].Forward? <==> i % 2 == 0;
    }
  }

  /** After a move in a writable path comes nothing, or a turn letter. */
  lemma TextAfterMove(path: seq<Instruction>)
    requires Writable(path) && path != [] && path[0].Forward?
    ensures PathText(path[1..]) == [] || !IsDigit(PathText(path[1..])[0])
  {
    if |path| > 1 {
      assert !path[1].Forward?;
      var tail := path[1..];
      assert tail[0] == path[1];
    }
  }

  /** `parse_instructions`: consume a letter or a number at a time. */
  method ParseInstructions(s: string) returns (r: Option<seq<Instruction>>)
    ensures r == Instructions(s)
  {
    var left := s;
    var instructions: seq<Instruction> := [];
    assert Concat([], Instructions(s)) == Instructions(s) by {
      if Instructions(s).Some? {
        assert [] + Instructions(s).value == Instructions(s).value;
      }
    }
    while left != []
      invariant Instructions(s) == Concat(instructions, Instructions(left))
      decreases |left|
    {
      if left[0] == 'L' {
        ConcatStep(instructions, TurnLeftInstr, Instructions(left[1..]));
        instructions := instructions + [TurnLeftInstr];
        left := left[1..];
      } else if left[0] == 'R' {
        ConcatStep(instructions, TurnRightInstr, Instructions(left[1..]));
        instructions := instructions + [TurnRightInstr];
        left := left[1..];
      } else {
        var next := ParseNextInt(left);
        if next.None? {
          return None;
        }
        ConcatStep(instructions, Forward(next.value.0), Instructions(next.value.1));
        instructions := instructions + [Forward(next.value.0)];
        left := next.value.1;
      }
    }
    assert instructions + [] == instructions;
    return Some(instructions);
  }

  function Concat(front: seq<Instruction>, r: Option<seq<Instruction>>): Option<seq<Instruction>> {
    match r
    case None => None
    case Some(tail) => Some(front + tail)
  }

  lemma ConcatStep(front: seq<Instruction>, ins: Instruction, r: Option<seq<Instruction>>)
    ensures Concat(front, Prepend(ins, r)) == Concat(front + [ins], r)
  {
    if r.Some? {
      assert front + ([ins] + r.value) == front + [ins] + r.value;
    }
  }

  // ---------------------------------------------------------------- driver

  /** `run`: split the notes at the blank line, read the board and the path,
      follow the path from the start tile facing East, and compute the
      password. None where the source panics: no blank line, a bad board or
      path, or a board that is not 200 rows of 150 cells. */
  method Run(input: string) returns (password: Option<nat>, grid: Grid, start: Pos, path: seq<Instruction>)
    ensures password.Some? ==>
              SplitOnce(input, "\n\n").Some? &&
              Instructions(Trim(SplitOnce(input, "\n\n").value.1)) == Some(path) &&
              Rectangular(grid) && Open(grid, start) &&
              AllCellChars(Lines(SplitOnce(input, "\n\n").value.0)) &&
              Drawn(grid, Lines(SplitOnce(input, "\n\n").value.0), MaxLength(Lines(SplitOnce(input, "\n\n").value.0))) &&
              FirstOpen(grid, start) &&
              |grid| == 200 && |grid[0]| == 150 &&
              var final := Followed(grid, start, East, path);
              password.value == Password(final.0, final.1)
    ensures password.Some? <==>
              SplitOnce(input, "\n\n").Some? &&
              var lines := Lines(SplitOnce(input, "\n\n").value.0);
              lines != [] && AllCellChars(lines) && HasOpenChar(lines) &&
              Instructions(Trim(SplitOnce(input, "\n\n").value.1)).Some? &&
              |lines| == 200 && MaxLength(lines) == 150
  {
    grid, start, path := [], (0, 0), [];
    var halves := SplitOnce(input, "\n\n");
    if halves.None? {
      return None, grid, start, path;
    }
    var parsedGrid := ParseGrid(halves.value.0);
    if parsedGrid.None? {
      return None, grid, start, path;
    }
    var parsedPath := ParseInstructions(Trim(halves.value.1));
    if parsedPath.None? {
      return None, grid, start, path;
    }
    grid, start, path := parsedGrid.value.0, parsedGrid.value.1, parsedPath.value;
    if |grid| != 200 || |grid[0]| != 150 {
      return None, grid, start, path;
    }
    var board := new Board(grid, start);
    board.Follow(path);
    return Some(board.CurrentPassword()), grid, start, path;
  }
}
