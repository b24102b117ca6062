/** Day 17 (Pyroclastic Flow): rocks of five shapes fall one after the other
    into a chamber seven columns wide. A jet of gas pushes each falling rock
    one column left or right before every one-row drop; a rock comes to rest
    when a cell of it sits on the floor or on a settled cell. The chamber
    keeps its rows as text (row 0 at the bottom), drops every row that holds
    no rock, and forgets the rows below the lowest full row while counting
    them in an offset. */
module Day17Rocks {
  import opened Text

  /** (row, column): row 0 is the lowest row kept, columns run 0 ..= 6 from
      the left wall. */
  type Position = (int, int)

  datatype Rock = MinusSign | PlusSign | ReverseL | VerticalLine | Square

  datatype Direction = Left | Right

  // ------------------------------------------------------------------ rocks

  /** The drawing `from_str` recognises for each rock, top row first. */
  function Drawing(rock: Rock): string {
    match rock
    case MinusSign => "####"
    case PlusSign => ".#.\n###\n.#."
    case ReverseL => "..#\n..#\n###"
    case VerticalLine => "#\n#\n#\n#"
    case Square => "##\n##"
  }

  /** `from_str`: the rock whose drawing the trimmed text is; no result for
      any other text. */
  function RockFromStr(s: string): (r: Option<Rock>)
    ensures r.Some? ==> Trim(s) == Drawing(r.value)
  {
    RockOfText(Trim(s))
  }

  /** The rock whose drawing `t` is exactly. */
  function RockOfText(t: string): (r: Option<Rock>)
    ensures r.Some? ==> t == Drawing(r.value)
  {
    if t == "####" then Some(MinusSign)
    else if t == ".#.\n###\n.#." then Some(PlusSign)
    else if t == "..#\n..#\n###" then Some(ReverseL)
    else if t == "#\n#\n#\n#" then Some(VerticalLine)
    else if t == "##\n##" then Some(Square)
    else None
  }

  /** A drawing surrounded by whitespace reads back as its rock. */
  lemma RockFromDrawing(pre: string, rock: Rock, post: string)
    requires forall i | 0 <= i < |pre| :: IsWhitespace(pre[i])
    requires forall i | 0 <= i < |post| :: IsWhitespace(post[i])
    ensures RockFromStr(pre + Drawing(rock) + post) == Some(rock)
  {
    DrawingEnds(rock);
    TrimOfPadded(pre, Drawing(rock), post);
    RockOfDrawing(rock);
  }

  /** No drawing starts or ends with whitespace. */
  lemma DrawingEnds(rock: Rock)
    ensures var d := Drawing(rock); d != [] && !IsWhitespace(d[0]) && !IsWhitespace(d[|d| - 1])
  {
    var d := Drawing(rock);
    match rock
    case PlusSign => assert d[0] == '.' && d[|d| - 1] == '.';
    case ReverseL => assert d[0] == '.' && d[|d| - 1] == '#';
    case _ => assert d[0] == '#' && d[|d| - 1] == '#';
  }

  /** Each drawing is recognised as its own rock. */
  lemma RockOfDrawing(rock: Rock)
    ensures RockOfText(Drawing(rock)) == Some(rock)
  {
    match rock
    case MinusSign =>
    case PlusSign =>
    case ReverseL =>
    case VerticalLine =>
    case Square =>
  }

  /** `to_positions`: the cells of a rock, relative to the lowest row and
      the leftmost column it covers (see `ShapeCorner` and `ShapeOfDrawing`). */
  function Shape(rock: Rock): (r: seq<Position>)
    ensures ShapeOk(r)
  {
    match rock
    case MinusSign => [(0, 0), (0, 1), (0, 2), (0, 3)]
    case VerticalLine => [(0, 0), (1, 0), (2, 0), (3, 0)]
    case PlusSign => [(0, 1), (1, 0), (1, 1), (1, 2), (2, 1)]
    case ReverseL => [(0, 0), (0, 1), (0, 2), (1, 2), (2, 2)]
    case Square => [(0, 0), (0, 1), (1, 0), (1, 1)]
  }

  /** The cells of a shape lie in a box of four rows and four columns whose
      lowest row holds the first cell. */
  predicate ShapeOk(s: seq<Position>) {
    s != [] && s[0].0 == 0 && forall i | 0 <= i < |s| :: 0 <= s[i].0 < 4 && 0 <= s[i].1 < 4
  }

  /** The lowest row and the leftmost column of a shape's box each hold a
      cell. */
  lemma ShapeCorner(rock: Rock)
    ensures exists i | 0 <= i < |Shape(rock)| :: Shape(rock)[i].0 == 0
    ensures exists i | 0 <= i < |Shape(rock)| :: Shape(rock)[i].1 == 0
  {
    var s := Shape(rock);
    match rock
    case PlusSign => assert s[1].1 == 0;
    case _ => assert s[0].1 == 0;
  }

  /** Cell (x, y) of a drawing given as its lines, top line first, with row
      x counted from the bottom line. */
  predicate Drawn(lines: seq<string>, x: int, y: int) {
    0 <= x < |lines| && 0 <= y < |lines[|lines| - 1 - x]| && lines[|lines| - 1 - x][y] == '#'
  }

  /** The lines of each drawing. */
  function DrawingLines(rock: Rock): seq<string> {
    match rock
    case MinusSign => ["####"]
    case PlusSign => [".#.", "###", ".#."]
    case ReverseL => ["..#", "..#", "###"]
    case VerticalLine => ["#", "#", "#", "#"]
    case Square => ["##", "##"]
  }

  lemma DrawingJoined(rock: Rock)
    ensures Join(DrawingLines(rock), '\n') == Drawing(rock)
  {
    var ls := DrawingLines(rock);
    match rock
    case MinusSign =>
    case PlusSign =>
      JoinThree(".#.", "###", ".#.", '\n');
    case ReverseL =>
      JoinThree("..#", "..#", "###", '\n');
    case VerticalLine =>
      assert ls[1..] == ["#", "#", "#"];
      JoinThree("#", "#", "#", '\n');
      assert "#" + ['\n'] + "#\n#\n#" == "#\n#\n#\n#";
    case Square =>
      assert ls[1..] == ["##"];
      assert "##" + ['\n'] + "##" == "##\n##";
  }

  /** The cells `to_positions` lists are exactly the '#' of the drawing
      `from_str` recognises, the bottom line being row 0. */
  lemma ShapeOfDrawing(rock: Rock)
    ensures forall x, y :: (x, y) in Shape(rock) <==> Drawn(Lines(Drawing(rock)), x, y)
  {
    var ls := DrawingLines(rock);
    DrawingJoined(rock);
    assert forall k | 0 <= k < |ls| :: ls[k] != [] && '\n' !in ls[k] && ls[k][|ls[k]| - 1] != '\r';
    LinesOfJoin(ls);
    ShapeOfLines(rock);
  }

  lemma ShapeOfLines(rock: Rock)
    ensures forall x, y :: (x, y) in Shape(rock) <==> Drawn(DrawingLines(rock), x, y)
  {
    forall x, y
      ensures (x, y) in Shape(rock) <==> Drawn(DrawingLines(rock), x, y)
    {
      ShapeCell(rock, x, y);
    }
  }

  lemma ShapeCell(rock: Rock, x: int, y: int)
    ensures (x, y) in Shape(rock) <==> Drawn(DrawingLines(rock), x, y)
  {
    var ls := DrawingLines(rock);
    if Drawn(ls, x, y) {
      var line := ls[|ls| - 1 - x];
      assert 0 <= y < |line| && line[y] == '#';
      match rock
      case MinusSign =>
        assert x == 0 && 0 <= y < 4;
      case VerticalLine =>
        assert 0 <= x < 4 && y == 0;
      case PlusSign =>
        assert (x == 0 && y == 1) || (x == 1 && 0 <= y < 3) || (x == 2 && y == 1);
      case ReverseL =>
        assert (x == 0 && 0 <= y < 3) || (x == 1 && y == 2) || (x == 2 && y == 2);
      case Square =>
        assert 0 <= x < 2 && 0 <= y < 2;
    }
  }

  /** The greatest row of a non-empty list of cells. */
  function MaxRow(ps: seq<Position>): (m: int)
    requires ps != []
    ensures forall i | 0 <= i < |ps| :: ps[i].0 <= m
    ensures exists i | 0 <= i < |ps| :: ps[i].0 == m
  {
    if |ps| == 1 then ps[0].0
    else
      var m := MaxRow(ps[1..]);
      assert forall i | 1 <= i < |ps| :: ps[i] == ps[1..][i - 1];
      if ps[0].0 < m then m else ps[0].0
  }

  /** The number of rows a shape covers: one more than its highest row, as
      `add_rock` computes it. */
  function Height(shape: seq<Position>): int
    requires shape != []
  {
    MaxRow(shape) + 1
  }

  /** Some cell of the shape lies on row `x`. */
  predicate RowOccupied(shape: seq<Position>, x: int) {
    exists i | 0 <= i < |shape| :: shape[i].0 == x
  }

  /** Every row from the lowest to the highest holds a cell of the shape. */
  predicate Gapless(shape: seq<Position>)
    requires shape != []
  {
    forall x | 0 <= x < Height(shape) :: RowOccupied(shape, x)
  }

  /** Every row of the box `0 .. Height - 1` of a rock holds one of its
      cells; a rock is one to four rows high. */
  lemma HeightRows(rock: Rock)
    ensures 1 <= Height(Shape(rock)) <= 4
    ensures Gapless(Shape(rock))
  {
    var s := Shape(rock);
    var m := MaxRow(s);
    var w :| 0 <= w < |s| && s[w].0 == m;
    match rock
    case MinusSign =>
      assert m == 0;
      assert RowOccupied(s, 0);
    case VerticalLine =>
      assert s[3].0 == 3 && m == 3;
      assert RowOccupied(s, 0) && RowOccupied(s, 1) && RowOccupied(s, 2) && RowOccupied(s, 3) by {
        assert s[1].0 == 1 && s[2].0 == 2;
      }
    case PlusSign =>
      assert s[4].0 == 2 && m == 2;
      assert RowOccupied(s, 0) && RowOccupied(s, 1) && RowOccupied(s, 2) by {
        assert s[1].0 == 1;
      }
    case ReverseL =>
      assert s[4].0 == 2 && m == 2;
      assert RowOccupied(s, 0) && RowOccupied(s, 1) && RowOccupied(s, 2) by {
        assert s[3].0 == 1;
      }
    case Square =>
      assert s[2].0 == 1 && m == 1;
      assert RowOccupied(s, 0) && RowOccupied(s, 1) by {
        assert s[2].0 == 1;
      }
  }

  /** The cells moved by `dr` rows and `dc` columns. */
  function Shifted(ps: seq<Position>, dr: int, dc: int): (r: seq<Position>)
    ensures |r| == |ps| && forall i | 0 <= i < |ps| :: r[i] == (ps[i].0 + dr, ps[i].1 + dc)
  {
    seq(|ps|, i requires 0 <= i < |ps| => (ps[i].0 + dr, ps[i].1 + dc))
  }

  /** The cells of a shape whose box has its lowest row at `r` and its
      left edge at column `c`. */
  function Placed(shape: seq<Position>, r: int, c: int): seq<Position> {
    Shifted(shape, r, c)
  }

  /** Moving a placed shape places it elsewhere. */
  lemma ShiftPlaced(shape: seq<Position>, r: int, c: int, dr: int, dc: int)
    ensures Shifted(Placed(shape, r, c), dr, dc) == Placed(shape, r + dr, c + dc)
  {
  }

  // ---------------------------------------------------------------- jets

  /** `Direction::from_char`; no result where the source panics. */
  function JetFromChar(c: char): (d: Option<Direction>)
    ensures d.Some? <==> c == '<' || c == '>'
  {
    if c == '<' then Some(Left) else if c == '>' then Some(Right) else None
  }

  function JetChar(d: Direction): char {
    match d
    case Left => '<'
    case Right => '>'
  }

  /** The jet pattern of the puzzle input: the trimmed text, one direction
      per character; no result when a character is neither '<' nor '>'. */
  function Jets(s: string): (r: Option<seq<Direction>>)
    ensures r.Some? ==> |r.value| == |Trim(s)| && forall i | 0 <= i < |r.value| :: JetChar(r.value[i]) == Trim(s)[i]
    ensures r.None? <==> exists i | 0 <= i < |Trim(s)| :: JetFromChar(Trim(s)[i]).None?
  {
    JetsOf(Trim(s))
  }

  function JetsOf(t: string): (r: Option<seq<Direction>>)
    ensures r.Some? ==> |r.value| == |t| && forall i | 0 <= i < |r.value| :: JetChar(r.value[i]) == t[i]
    ensures r.None? <==> exists i | 0 <= i < |t| :: JetFromChar(t[i]).None?
  {
    if t == [] then Some([])
    else
      var last := |t| - 1;
      assert forall i | 0 <= i < last :: t[..last][i] == t[i];
      match (JetsOf(t[..last]), JetFromChar(t[last]))
      case (Some(ds), Some(d)) => Some(ds + [d])
      case _ => None
  }

  /** Writing the jets back gives the text they were read from. */
  lemma JetsRoundTrip(ds: seq<Direction>)
    ensures JetsOf(seq(|ds|, i requires 0 <= i < |ds| => JetChar(ds[i]))) == Some(ds)
  {
    var t := seq(|ds|, i requires 0 <= i < |ds| => JetChar(ds[i]));
    var r := JetsOf(t);
    assert r.Some?;
    assert forall i | 0 <= i < |ds| :: r.value[i] == ds[i] by {
      forall i | 0 <= i < |ds| ensures r.value[i] == ds[i] {
        assert JetChar(r.value[i]) == JetChar(ds[i]);
      }
    }
    assert r.value == ds;
  }

  /** The index of the jet after jet `j`: the pattern repeats forever. */
  function NextJet(jets: seq<Direction>, j: nat): (k: nat)
    requires j < |jets|
    ensures k < |jets|
  {
    if j + 1 == |jets| then 0 else j + 1
  }

  /** The column a jet moves a rock by. */
  function Push(d: Direction): int {
    match d
    case Left => -1
    case Right => 1
  }

  // -------------------------------------------------------------- chamber

  const Width: int := 7

  /** `add_row`: a row of seven empty cells. */
  function EmptyRow(): string {
    seq(Width, _ => '.')
  }

  function EmptyRows(n: nat): seq<string> {
    seq(n, _ => EmptyRow())
  }

  /** Every row is seven cells of '.' or '#'. */
  predicate WellFormed(rows: seq<string>) {
    forall k | 0 <= k < |rows| :: |rows[k]| == Width && forall j | 0 <= j < Width :: rows[k][j] == '.' || rows[k][j] == '#'
  }

  predicate HasRock(row: string) {
    '#' in row
  }

  predicate Full(row: string) {
    forall j | 0 <= j < |row| :: row[j] == '#'
  }

  /** The shape of the rows between rocks: well formed, no empty row. */
  predicate Settled(rows: seq<string>) {
    WellFormed(rows) && forall k | 0 <= k < |rows| :: HasRock(rows[k])
  }

  /** Every cell is inside the chamber's rows and walls. */
  predicate Within(rows: seq<string>, ps: seq<Position>) {
    forall i | 0 <= i < |ps| :: 0 <= ps[i].0 < |rows| && 0 <= ps[i].1 < Width
  }

  /** Every cell is on an existing row. */
  predicate OnRows(rows: seq<string>, ps: seq<Position>) {
    forall i | 0 <= i < |ps| :: 0 <= ps[i].0 < |rows|
  }

  /** `can_blow`: every cell is between the walls and on no settled rock. */
  predicate Blowable(rows: seq<string>, ps: seq<Position>)
    requires WellFormed(rows) && OnRows(rows, ps)
  {
    forall i | 0 <= i < |ps| :: 0 <= ps[i].1 < Width && rows[ps[i].0][ps[i].1] != '#'
  }

  /** Every cell has a free cell right below it: the negation of
      `should_set`, which holds when some cell is on row 0 or right above a
      settled rock. */
  predicate CanDrop(rows: seq<string>, ps: seq<Position>)
    requires WellFormed(rows) && Within(rows, ps)
  {
    forall i | 0 <= i < |ps| :: ps[i].0 > 0 && rows[ps[i].0 - 1][ps[i].1] != '#'
  }

  /** The column of a rock after a jet: one further when `Blowable` allows
      it, the same otherwise. */
  function Pushed(rows: seq<string>, shape: seq<Position>, r: int, c: int, d: Direction): (c': int)
    requires WellFormed(rows) && ShapeOk(shape) && Within(rows, Placed(shape, r, c))
    ensures Within(rows, Placed(shape, r, c'))
    ensures c' == c + Push(d) <==> Blowable(rows, Placed(shape, r, c + Push(d)))
  {
    if Blowable(rows, Placed(shape, r, c + Push(d))) then c + Push(d) else c
  }

  /** The fall of a rock placed at row `r` and column `c`, with jet `j` next:
      the row and column where it comes to rest and the jet that follows.
      Each step uses one jet: the rock moves a column when `Blowable` allows
      it, then sets unless `CanDrop`, or else drops a row. */
  function Fall(rows: seq<string>, shape: seq<Position>, r: int, c: int, jets: seq<Direction>, j: nat): (res: (int, int, nat))
    requires WellFormed(rows) && ShapeOk(shape) && Within(rows, Placed(shape, r, c))
    requires j < |jets|
    ensures res.2 < |jets| && 0 <= res.0 <= r
    decreases r
  {
    var c' := Pushed(rows, shape, r, c, jets[j]);
    var j' := NextJet(jets, j);
    if !CanDrop(rows, Placed(shape, r, c')) then (r, c', j')
    else Fall(rows, shape, r - 1, c', jets, j')
  }

  /** The rows with '#' written at every cell. */
  function Stamp(rows: seq<string>, ps: seq<Position>): (r: seq<string>)
    requires WellFormed(rows) && Within(rows, ps)
    ensures |r| == |rows| && WellFormed(r)
  {
    if ps == [] then rows
    else
      var last := |ps| - 1;
      var p := ps[last];
      var s := Stamp(rows, ps[..last]);
      s[p.0 := s[p.0][p.1 := '#']]
  }

  /** After stamping, a cell holds '#' when it is one of the cells and what
      it held before otherwise. */
  lemma {:induction false} StampCell(rows: seq<string>, ps: seq<Position>, k: int, j: int)
    requires WellFormed(rows) && Within(rows, ps)
    requires 0 <= k < |rows| && 0 <= j < Width
    ensures Stamp(rows, ps)[k][j] == if (k, j) in ps then '#' else rows[k][j]
  {
    if ps != [] {
      var last := |ps| - 1;
      StampCell(rows, ps[..last], k, j);
      assert (k, j) in ps <==> (k, j) in ps[..last] || (k, j) == ps[last];
    }
  }

  /** The filter in `add_rock`: the rows that hold a rock, in order. */
  function Filled(rows: seq<string>): (r: seq<string>)
    ensures |r| <= |rows|
    ensures forall k | 0 <= k < |r| :: HasRock(r[k]) && r[k] in rows
  {
    if rows == [] then []
    else
      var last := |rows| - 1;
      var rest := Filled(rows[..last]);
      if HasRock(rows[last]) then rest + [rows[last]] else rest
  }

  /** Dropping the rows without rock from well-formed rows leaves a
      settled chamber. */
  lemma {:induction false} FilledSettles(rows: seq<string>)
    requires WellFormed(rows)
    ensures Settled(Filled(rows))
  {
    if rows != [] {
      var last := |rows| - 1;
      FilledSettles(rows[..last]);
      var rest := Filled(rows[..last]);
      if HasRock(rows[last]) {
        assert Filled(rows) == rest + [rows[last]];
      }
    }
  }

  /** Rows that hold a rock up to `m` and none above keep the first `m`. */
  lemma {:induction false} FilledPrefix(rows: seq<string>, m: nat)
    requires m <= |rows|
    requires forall k | 0 <= k < m :: HasRock(rows[k])
    requires forall k | m <= k < |rows| :: !HasRock(rows[k])
    ensures Filled(rows) == rows[..m]
  {
    if rows != [] {
      var last := |rows| - 1;
      if m == |rows| {
        FilledPrefix(rows[..last], last);
        assert rows[..last] + [rows[last]] == rows;
      } else {
        FilledPrefix(rows[..last], m);
      }
    }
  }

  /** The index of the lowest full row, as `Iterator::position` finds it. */
  function FirstFull(rows: seq<string>): (r: Option<nat>)
    ensures r.Some? ==> r.value < |rows| && Full(rows[r.value]) && forall k | 0 <= k < r.value :: !Full(rows[k])
    ensures r.None? ==> forall k | 0 <= k < |rows| :: !Full(rows[k])
  {
    if rows == [] then None
    else if Full(rows[0]) then Some(0)
    else
      match FirstFull(rows[1..])
      case None => None
      case Some(i) => Some(i + 1)
  }

  /** `compress`: the rows from the lowest full one on, the dropped rows
      counted in the offset. */
  function Compressed(rows: seq<string>, offset: nat): (seq<string>, nat) {
    match FirstFull(rows)
    case None => (rows, offset)
    case Some(cutoff) => (rows[cutoff..], offset + cutoff)
  }

  /** Compressing keeps the tower height and a settled chamber settled, and
      what is dropped lies below a full row. */
  lemma CompressKeepsHeight(rows: seq<string>, offset: nat)
    ensures |Compressed(rows, offset).0| + Compressed(rows, offset).1 == |rows| + offset
    ensures Compressed(rows, offset).0 == rows[|rows| - |Compressed(rows, offset).0|..]
    ensures Compressed(rows, offset).0 != rows ==> Full(Compressed(rows, offset).0[0])
    ensures Settled(rows) ==> Settled(Compressed(rows, offset).0)
  {
  }

  /** `update_tallest_row`: the index of the highest row holding a rock, or
      -1 when no row does. */
  function Tallest(rows: seq<string>): (t: int)
    ensures -1 <= t < |rows|
    ensures t == -1 <==> forall k | 0 <= k < |rows| :: !HasRock(rows[k])
    ensures t >= 0 ==> HasRock(rows[t]) && forall k | t < k < |rows| :: !HasRock(rows[k])
  {
    if rows == [] then -1
    else if HasRock(rows[|rows| - 1]) then |rows| - 1
    else Tallest(rows[..|rows| - 1])
  }

  /** In a settled chamber the highest row holding a rock is the last. */
  lemma TallestSettled(rows: seq<string>)
    requires Settled(rows)
    ensures Tallest(rows) == |rows| - 1
  {
    if rows != [] {
      assert HasRock(rows[|rows| - 1]);
    }
  }

  /** Where a fall ends the rock is inside the chamber and resting. */
  lemma FallRests(rows: seq<string>, shape: seq<Position>, r: int, c: int, jets: seq<Direction>, j: nat)
    requires WellFormed(rows) && ShapeOk(shape) && Within(rows, Placed(shape, r, c)) && j < |jets|
    ensures var res := Fall(rows, shape, r, c, jets, j);
      Within(rows, Placed(shape, res.0, res.1)) && !CanDrop(rows, Placed(shape, res.0, res.1))
    decreases r
  {
    var c' := Pushed(rows, shape, r, c, jets[j]);
    if CanDrop(rows, Placed(shape, r, c')) {
      FallDrops(rows, shape, r, c, jets, j, c');
      FallRests(rows, shape, r - 1, c', jets, NextJet(jets, j));
    } else {
      FallSets(rows, shape, r, c, jets, j);
    }
  }

  /** A rock that cannot drop after its push comes to rest there. */
  lemma FallSets(rows: seq<string>, shape: seq<Position>, r: int, c: int, jets: seq<Direction>, j: nat)
    requires WellFormed(rows) && ShapeOk(shape) && Within(rows, Placed(shape, r, c)) && j < |jets|
    requires !CanDrop(rows, Placed(shape, r, Pushed(rows, shape, r, c, jets[j])))
    ensures Fall(rows, shape, r, c, jets, j) == (r, Pushed(rows, shape, r, c, jets[j]), NextJet(jets, j))
  {
  }

  /** A rock in a settled chamber with empty rows above it comes to rest
      at most one row above the last settled row: it falls through every
      empty row. */
  lemma FallThrough(rows: seq<string>, k: nat, shape: seq<Position>, r: int, c: int, jets: seq<Direction>, j: nat)
    requires WellFormed(rows) && ShapeOk(shape) && Within(rows, Placed(shape, r, c)) && j < |jets|
    requires k <= r
    requires forall x | k <= x < |rows| :: !HasRock(rows[x])
    ensures Fall(rows, shape, r, c, jets, j).0 <= k
    decreases r
  {
    var c' := Pushed(rows, shape, r, c, jets[j]);
    if k < r {
      DropsThrough(rows, k, shape, r, c');
      FallDrops(rows, shape, r, c, jets, j, c');
      FallThrough(rows, k, shape, r - 1, c', jets, NextJet(jets, j));
    }
  }

  /** A rock whose cells are all above row `k`, with no rock from row `k`
      on, can drop. */
  lemma DropsThrough(rows: seq<string>, k: nat, shape: seq<Position>, r: int, c: int)
    requires WellFormed(rows) && ShapeOk(shape) && Within(rows, Placed(shape, r, c))
    requires k < r && forall x | k <= x < |rows| :: !HasRock(rows[x])
    ensures CanDrop(rows, Placed(shape, r, c))
  {
    var ps := Placed(shape, r, c);
    forall i | 0 <= i < |ps|
      ensures ps[i].0 > 0 && rows[ps[i].0 - 1][ps[i].1] != '#'
    {
      assert ps[i].0 - 1 >= k && !HasRock(rows[ps[i].0 - 1]);
    }
  }

  /** A rock that can drop stays inside the chamber when it does. */
  lemma DropWithin(rows: seq<string>, shape: seq<Position>, r: int, c: int)
    requires WellFormed(rows) && ShapeOk(shape) && Within(rows, Placed(shape, r, c)) && CanDrop(rows, Placed(shape, r, c))
    ensures r > 0 && Within(rows, Placed(shape, r - 1, c)) && Blowable(rows, Placed(shape, r - 1, c))
  {
    var ps := Placed(shape, r, c);
    assert ps[0].0 == r;
    assert Placed(shape, r - 1, c) == Shifted(ps, -1, 0);
  }

  /** A rock that can drop after its push continues its fall a row lower,
      with the next jet. */
  lemma FallDrops(rows: seq<string>, shape: seq<Position>, r: int, c: int, jets: seq<Direction>, j: nat, c': int)
    requires WellFormed(rows) && ShapeOk(shape) && Within(rows, Placed(shape, r, c)) && j < |jets|
    requires c' == Pushed(rows, shape, r, c, jets[j]) && CanDrop(rows, Placed(shape, r, c'))
    ensures r > 0 && Within(rows, Placed(shape, r - 1, c')) && Blowable(rows, Placed(shape, r - 1, c'))
    ensures Fall(rows, shape, r, c, jets, j) == Fall(rows, shape, r - 1, c', jets, NextJet(jets, j))
  {
    DropWithin(rows, shape, r, c');
  }

  /** The rows after a rock sets on a settled chamber, before compression:
      the old rows, then the rows the rock reaches above them. */
  lemma {:induction false} SetRows(rows: seq<string>, shape: seq<Position>, r: int, c: int)
    requires Settled(rows) && ShapeOk(shape) && Gapless(shape)
    requires 0 <= r <= |rows|
    requires Within(Grown(rows, shape), Placed(shape, r, c))
    ensures var grown := Grown(rows, shape);
      var m := if r + Height(shape) < |rows| then |rows| else r + Height(shape);
      m <= |grown| && Filled(Stamp(grown, Placed(shape, r, c))) == Stamp(grown, Placed(shape, r, c))[..m]
    ensures Settled(Filled(Stamp(Grown(rows, shape), Placed(shape, r, c))))
  {
    var grown := Grown(rows, shape);
    var m := if r + Height(shape) < |rows| then |rows| else r + Height(shape);
    var ps := Placed(shape, r, c);
    assert m <= |grown| by {
      var i := 0;
      assert ps[i].0 == r && ps[i].0 < |grown|;
    }
    StampedLow(rows, grown, shape, r, c, m);
    StampedHigh(rows, grown, shape, r, c, m);
    FilledPrefix(Stamp(grown, ps), m);
    FilledSettles(Stamp(grown, ps));
  }

  /** Up to the top of the old rows and of the rock, every stamped row
      holds a rock. */
  lemma StampedLow(rows: seq<string>, grown: seq<string>, shape: seq<Position>, r: int, c: int, m: int)
    requires Settled(rows) && ShapeOk(shape) && Gapless(shape)
    requires grown == Grown(rows, shape)
    requires 0 <= r <= |rows| && Within(grown, Placed(shape, r, c))
    requires m == (if r + Height(shape) < |rows| then |rows| else r + Height(shape)) && m <= |grown|
    ensures forall k | 0 <= k < m :: HasRock(Stamp(grown, Placed(shape, r, c))[k])
  {
    var ps := Placed(shape, r, c);
    forall k | 0 <= k < m
      ensures HasRock(Stamp(grown, ps)[k])
    {
      if k < |rows| {
        assert grown[k] == rows[k];
        var y :| 0 <= y < |rows[k]| && rows[k][y] == '#';
        StampedRock(grown, ps, k, y);
      } else {
        var y := CellOnRow(shape, r, c, k);
        StampedRock(grown, ps, k, y);
      }
    }
  }

  /** Above the old rows and the rock, every stamped row is empty. */
  lemma StampedHigh(rows: seq<string>, grown: seq<string>, shape: seq<Position>, r: int, c: int, m: int)
    requires WellFormed(rows) && ShapeOk(shape)
    requires grown == Grown(rows, shape)
    requires Within(grown, Placed(shape, r, c))
    requires m == (if r + Height(shape) < |rows| then |rows| else r + Height(shape))
    ensures forall k | m <= k < |grown| :: !HasRock(Stamp(grown, Placed(shape, r, c))[k])
  {
    var ps := Placed(shape, r, c);
    PlacedBelow(shape, r, c);
    forall k | m <= k < |grown|
      ensures !HasRock(Stamp(grown, ps)[k])
    {
      assert grown[k] == EmptyRow();
      StampedClear(grown, ps, k);
    }
  }

  /** A row with '#' at a cell, written or already there, holds a rock
      after stamping. */
  lemma StampedRock(rows: seq<string>, ps: seq<Position>, k: int, y: int)
    requires WellFormed(rows) && Within(rows, ps)
    requires 0 <= k < |rows| && 0 <= y < Width
    requires (k, y) in ps || rows[k][y] == '#'
    ensures HasRock(Stamp(rows, ps)[k])
  {
    StampCell(rows, ps, k, y);
  }

  /** An empty row that no cell lies on stays empty after stamping. */
  lemma StampedClear(rows: seq<string>, ps: seq<Position>, k: int)
    requires WellFormed(rows) && Within(rows, ps)
    requires 0 <= k < |rows| && rows[k] == EmptyRow()
    requires forall i | 0 <= i < |ps| :: ps[i].0 < k
    ensures !HasRock(Stamp(rows, ps)[k])
  {
    var row := Stamp(rows, ps)[k];
    forall y | 0 <= y < Width
      ensures row[y] == '.'
    {
      assert (k, y) !in ps;
      StampCell(rows, ps, k, y);
    }
  }

  /** Each row the box of a placed rock spans holds one of its cells. */
  lemma CellOnRow(shape: seq<Position>, r: int, c: int, k: int) returns (y: int)
    requires ShapeOk(shape) && Gapless(shape)
    requires r <= k < r + Height(shape)
    ensures (k, y) in Placed(shape, r, c)
  {
    assert RowOccupied(shape, k - r);
    var i :| 0 <= i < |shape| && shape[i].0 == k - r;
    y := shape[i].1 + c;
    assert Placed(shape, r, c)[i] == (k, y);
  }

  /** Every cell of a placed rock lies below the top of its box. */
  lemma PlacedBelow(shape: seq<Position>, r: int, c: int)
    requires ShapeOk(shape)
    ensures forall i | 0 <= i < |Placed(shape, r, c)| :: Placed(shape, r, c)[i].0 < r + Height(shape)
  {
    var ps := Placed(shape, r, c);
    forall i | 0 <= i < |ps|
      ensures ps[i].0 < r + Height(shape)
    {
      assert shape[i].0 <= MaxRow(shape);
    }
  }

  /** The rows of a chamber with room added on top for a rock: the height
      of its shape plus three empty rows. */
  function Grown(rows: seq<string>, shape: seq<Position>): (g: seq<string>)
    requires WellFormed(rows) && ShapeOk(shape)
    ensures WellFormed(g) && |g| == |rows| + Height(shape) + 3
    ensures forall k | 0 <= k < |g| :: g[k] == if k < |rows| then rows[k] else EmptyRow()
  {
    rows + EmptyRows(Height(shape) + 3)
  }

  /** Where a rock spawned over a settled chamber comes to rest, and the jet
      that follows: it starts two columns from the left wall with its lowest
      row three rows above the last row, and ends inside the grown rows,
      unable to drop, no higher than just above the old rows. */
  function Landing(rows: seq<string>, shape: seq<Position>, jets: seq<Direction>, j: nat): (res: (int, int, nat))
    requires Settled(rows) && ShapeOk(shape) && j < |jets|
    ensures Within(Grown(rows, shape), Placed(shape, res.0, res.1))
    ensures !CanDrop(Grown(rows, shape), Placed(shape, res.0, res.1))
    ensures 0 <= res.0 <= |rows| && res.2 < |jets|
  {
    var grown := Grown(rows, shape);
    PlacedBelow(shape, |rows| + 3, 2);
    FallRests(grown, shape, |rows| + 3, 2, jets, j);
    FallThrough(grown, |rows|, shape, |rows| + 3, 2, jets, j);
    Fall(grown, shape, |rows| + 3, 2, jets, j)
  }

  /** The rock order of `run`. */
  function RockOrder(i: nat): Rock {
    [MinusSign, PlusSign, ReverseL, VerticalLine, Square][i % 5]
  }

  /** The chamber after `add_rock` drops `rock` onto the rows with the jets
      from index `j` on: the rows kept, the rows dropped, and the next jet. */
  function Dropped(rows: seq<string>, offset: nat, rock: Rock, jets: seq<Direction>, j: nat): (res: (seq<string>, nat, nat))
    requires Settled(rows) && j < |jets|
    ensures Settled(res.0) && res.2 < |jets|
  {
    var shape := Shape(rock);
    var rest := Landing(rows, shape, jets, j);
    var stamped := Stamp(Grown(rows, shape), Placed(shape, rest.0, rest.1));
    FilledSettles(stamped);
    CompressKeepsHeight(Filled(stamped), offset);
    var (kept, dropped) := Compressed(Filled(stamped), offset);
    (kept, dropped, rest.2)
  }

  /** The chamber after the rocks `from` to `count - 1` of the rock order
      have been dropped, starting from `rows` and jet `j`. */
  function Tower(rows: seq<string>, offset: nat, jets: seq<Direction>, j: nat, from: nat, count: nat): (res: (seq<string>, nat, nat))
    requires Settled(rows) && j < |jets| && from <= count
    ensures Settled(res.0) && res.2 < |jets|
    decreases count - from
  {
    if from == count then (rows, offset, j)
    else
      var (kept, dropped, next) := Dropped(rows, offset, RockOrder(from), jets, j);
      Tower(kept, dropped, jets, next, from + 1, count)
  }

  /** The height of the tower of `count` rocks dropped into an empty
      chamber, the first taking the first jet. */
  function StackHeight(jets: seq<Direction>, count: nat): int
    requires jets != []
  {
    var t := Tower([], 0, jets, 0, 0, count);
    |t.0| + t.1
  }

  class Chamber {
    var rows: seq<string>
    var tallestRow: int
    var rowOffset: nat

    /** Between rocks every row holds a rock and `tallestRow` is the last. */
    predicate Valid()
      reads this
    {
      Settled(rows) && tallestRow == |rows| - 1
    }

    /** `new`: no rows, tallest row -1, offset 0. */
    constructor()
      ensures Valid() && rows == [] && tallestRow == -1 && rowOffset == 0
    {
      rows := [];
      tallestRow := -1;
      rowOffset := 0;
    }

    /** `tower_height`: the rows kept plus the rows dropped. */
    function TowerHeight(): int
      reads this
    {
      |rows| + rowOffset
    }

    /** `add_row`. */
    method AddRow()
      modifies this
      ensures rows == old(rows) + [EmptyRow()]
      ensures tallestRow == old(tallestRow) && rowOffset == old(rowOffset)
    {
      rows := rows + [EmptyRow()];
    }

    /** `can_blow`: true exactly when every cell is between the walls and on
        no settled rock. */
    method CanBlow(ps: seq<Position>) returns (b: bool)
      requires WellFormed(rows) && OnRows(rows, ps)
      ensures b == Blowable(rows, ps)
    {
      for i := 0 to |ps|
        invariant forall k | 0 <= k < i :: 0 <= ps[k].1 < Width && rows[ps[k].0][ps[k].1] != '#'
      {
        var (row, column) := ps[i];
        if column < 0 || column > 6 || rows[row][column] == '#' {
          return false;
        }
      }
      return true;
    }

    /** `should_set`: true exactly when some cell is on row 0 or above a
        settled rock. */
    method ShouldSet(ps: seq<Position>) returns (b: bool)
      requires WellFormed(rows) && Within(rows, ps)
      ensures b == !CanDrop(rows, ps)
    {
      for i := 0 to |ps|
        invariant forall k | 0 <= k < i :: ps[k].0 > 0 && rows[ps[k].0 - 1][ps[k].1] != '#'
      {
        var row := ps[i].0 - 1;
        if row < 0 || rows[row][ps[i].1] == '#' {
          return true;
        }
      }
      return false;
    }

    /** `compress`. */
    method Compress()
      modifies this
      ensures (rows, rowOffset) == Compressed(old(rows), old(rowOffset))
      ensures tallestRow == old(tallestRow)
    {
      var cutoff := FirstFull(rows);
      if cutoff.Some? {
        rowOffset := rowOffset + cutoff.value;
        rows := rows[cutoff.value..];
      }
    }

    /** `update_tallest_row`. */
    method UpdateTallestRow()
      modifies this
      ensures tallestRow == Tallest(rows)
      ensures rows == old(rows) && rowOffset == old(rowOffset)
    {
      tallestRow := Tallest(rows);
    }

    /** `add_rock`: adds `Height + 3` empty rows, places the rock two
        columns from the left wall with its lowest row three rows above the
        tallest one, lets it fall as `Fall` says using the jets from index
        `j` on, writes it into the rows where it rests, drops the rows
        without rock and compresses. Returns the index of the next jet. */
    method AddRock(rock: Rock, jets: seq<Direction>, j: nat) returns (next: nat)
      requires Valid() && j < |jets|
      modifies this
      ensures Valid() && next < |jets|
      ensures var rest := Landing(old(rows), Shape(rock), jets, j);
        next == rest.2 &&
        (rows, rowOffset) == Compressed(Filled(Stamp(Grown(old(rows), Shape(rock)), Placed(Shape(rock), rest.0, rest.1))), old(rowOffset))
      ensures var rest := Landing(old(rows), Shape(rock), jets, j);
        TowerHeight() == old(rowOffset) + (if rest.0 + Height(Shape(rock)) < |old(rows)| then |old(rows)| else rest.0 + Height(Shape(rock)))
    {
      var shape := Shape(rock);
      HeightRows(rock);
      next := DropShape(shape, jets, j);
    }

    /** The body of `add_rock` for the cells of one rock. */
    method DropShape(shape: seq<Position>, jets: seq<Direction>, j: nat) returns (next: nat)
      requires Valid() && j < |jets| && ShapeOk(shape) && Gapless(shape)
      modifies this
      ensures Valid() && next < |jets|
      ensures var rest := Landing(old(rows), shape, jets, j);
        next == rest.2 &&
        (rows, rowOffset) == Compressed(Filled(Stamp(Grown(old(rows), shape), Placed(shape, rest.0, rest.1))), old(rowOffset))
      ensures var rest := Landing(old(rows), shape, jets, j);
        TowerHeight() == old(rowOffset) + (if rest.0 + Height(shape) < |old(rows)| then |old(rows)| else rest.0 + Height(shape))
    {
      var height := MaxRow(shape) + 1;
      ghost var base := rows;
      AddRows(height + 3);
      assert rows == Grown(base, shape);
      var positions := Shifted(shape, tallestRow + 4, 2);
      PlacedBelow(shape, tallestRow + 4, 2);
      var r, c;
      r, c, next := FallLoop(shape, positions, tallestRow + 4, 2, jets, j);
      assert (r, c, next) == Landing(base, shape, jets, j);
      Settle(base, shape, r, c);
    }

    /** The loop of `add_rock` that makes room: `n` empty rows on top. */
    method AddRows(n: nat)
      modifies this
      ensures rows == old(rows) + EmptyRows(n)
      ensures tallestRow == old(tallestRow) && rowOffset == old(rowOffset)
    {
      for i := 0 to n
        invariant rows == old(rows) + EmptyRows(i)
        invariant tallestRow == old(tallestRow) && rowOffset == old(rowOffset)
      {
        AddRow();
        assert EmptyRows(i) + [EmptyRow()] == EmptyRows(i + 1);
      }
    }

    /** The falling loop of `add_rock`, from the rock at row `r` and column
        `c` with jet `j` next, to the row and column where it sets and the
        jet after its last step; the rows are left as they were. */
    method FallLoop(shape: seq<Position>, positions: seq<Position>, r: int, c: int, jets: seq<Direction>, j: nat)
      returns (r': int, c': int, next: nat)
      requires WellFormed(rows) && ShapeOk(shape) && j < |jets|
      requires positions == Placed(shape, r, c) && Within(rows, positions) && Blowable(rows, positions)
      modifies this
      ensures rows == old(rows) && tallestRow == old(tallestRow) && rowOffset == old(rowOffset)
      ensures (r', c', next) == Fall(rows, shape, r, c, jets, j)
    {
      var positions := positions;
      r', c', next := r, c, j;
      ghost var grid := rows;
      while true
        invariant rows == grid && tallestRow == old(tallestRow) && rowOffset == old(rowOffset)
        invariant next < |jets| && positions == Placed(shape, r', c')
        invariant Within(grid, positions) && Blowable(grid, positions)
        invariant Fall(grid, shape, r', c', jets, next) == Fall(grid, shape, r, c, jets, j)
        decreases r'
      {
        var sets;
        sets, positions, r', c', next := FallStep(shape, positions, r', c', jets, next);
        if sets {
          return;
        }
      }
    }

    /** One pass of the falling loop: a push by the jet `j`, then either the
        rock sets, where `Fall` says it rests, or it drops a row and its fall
        goes on from there with the next jet. */
    method FallStep(shape: seq<Position>, positions: seq<Position>, r: int, c: int, jets: seq<Direction>, j: nat)
      returns (sets: bool, positions': seq<Position>, r': int, c': int, next: nat)
      requires WellFormed(rows) && ShapeOk(shape) && j < |jets|
      requires positions == Placed(shape, r, c) && Within(rows, positions) && Blowable(rows, positions)
      modifies this
      ensures rows == old(rows) && tallestRow == old(tallestRow) && rowOffset == old(rowOffset)
      ensures next < |jets|
      ensures sets ==> (r', c', next) == Fall(rows, shape, r, c, jets, j)
      ensures !sets ==> r' == r - 1 && positions' == Placed(shape, r', c')
      ensures !sets ==> Within(rows, positions') && Blowable(rows, positions')
      ensures !sets ==> Fall(rows, shape, r', c', jets, next) == Fall(rows, shape, r, c, jets, j)
    {
      var dir := jets[j];
      next := NextJet(jets, j);
      var newPositions;
      newPositions, c' := Blow(shape, positions, r, c, dir);
      // Falling.
      sets := ShouldSet(newPositions);
      if sets {
        FallSets(rows, shape, r, c, jets, j);
        r', positions' := r, newPositions;
        return;
      }
      FallDrops(rows, shape, r, c, jets, j, c');
      CleanRock(newPositions);
      positions' := Shifted(newPositions, -1, 0);
      ShiftPlaced(shape, r, c', -1, 0);
      r' := r - 1;
    }

    /** The pushing step of `add_rock`: the rock moves a column in the jet's
        direction when `can_blow` allows it and stays otherwise. */
    method Blow(shape: seq<Position>, positions: seq<Position>, r: int, c: int, dir: Direction)
      returns (newPositions: seq<Position>, c': int)
      requires WellFormed(rows) && ShapeOk(shape)
      requires positions == Placed(shape, r, c) && Within(rows, positions) && Blowable(rows, positions)
      ensures c' == Pushed(rows, shape, r, c, dir) && newPositions == Placed(shape, r, c')
      ensures Within(rows, newPositions) && Blowable(rows, newPositions)
    {
      var moved := Shifted(positions, 0, Push(dir));
      ShiftPlaced(shape, r, c, 0, Push(dir));
      var blow := CanBlow(moved);
      newPositions := if blow then moved else positions;
      c' := if blow then c + Push(dir) else c;
    }

    /** The end of `add_rock` for a rock resting at row `r` and column `c`
        of the chamber grown from `base`: the rock is written in, the rows
        without rock are dropped, the rows are compressed and the tallest
        row updated. */
    method Settle(ghost base: seq<string>, shape: seq<Position>, r: int, c: int)
      requires Settled(base) && ShapeOk(shape) && Gapless(shape)
      requires rows == Grown(base, shape) && 0 <= r <= |base|
      requires Within(rows, Placed(shape, r, c))
      modifies this
      ensures Valid()
      ensures (rows, rowOffset) == Compressed(Filled(Stamp(Grown(base, shape), Placed(shape, r, c))), old(rowOffset))
      ensures TowerHeight() == old(rowOffset) + (if r + Height(shape) < |base| then |base| else r + Height(shape))
    {
      StampAndFilter(base, shape, r, c);
      ghost var filled := rows;
      Compress();
      CompressKeepsHeight(filled, old(rowOffset));
      UpdateTallestRow();
      TallestSettled(rows);
    }

    /** The rock written into the rows where it rests, then the filter that
        keeps the rows holding a rock: the old rows and the rows the rock
        reaches above them. */
    method StampAndFilter(ghost base: seq<string>, shape: seq<Position>, r: int, c: int)
      requires Settled(base) && ShapeOk(shape) && Gapless(shape)
      requires rows == Grown(base, shape) && 0 <= r <= |base|
      requires Within(rows, Placed(shape, r, c))
      modifies this
      ensures rows == Filled(Stamp(Grown(base, shape), Placed(shape, r, c))) && Settled(rows)
      ensures |rows| == if r + Height(shape) < |base| then |base| else r + Height(shape)
      ensures tallestRow == old(tallestRow) && rowOffset == old(rowOffset)
    {
      var positions := Shifted(shape, r, c);
      SetRock(positions);
      SetRows(base, shape, r, c);
      rows := Filled(rows);
    }

    /** The write loop of a rock that sets: '#' at every cell. */
    method SetRock(ps: seq<Position>)
      requires WellFormed(rows) && Within(rows, ps)
      modifies this
      ensures rows == Stamp(old(rows), ps)
      ensures tallestRow == old(tallestRow) && rowOffset == old(rowOffset)
    {
      ghost var before := rows;
      for i := 0 to |ps|
        invariant Within(before, ps[..i]) && rows == Stamp(before, ps[..i])
        invariant tallestRow == old(tallestRow) && rowOffset == old(rowOffset)
      {
        var (row, column) := ps[i];
        assert ps[..i + 1][..i] == ps[..i];
        rows := rows[row := rows[row][column := '#']];
      }
      assert ps[..|ps|] == ps;
    }

    /** The clean-up loop of a rock that falls on: '.' at every cell. The
        cells are free, so the rows stay as they were. */
    method CleanRock(ps: seq<Position>)
      requires WellFormed(rows) && Within(rows, ps) && Blowable(rows, ps)
      modifies this
      ensures rows == old(rows)
      ensures tallestRow == old(tallestRow) && rowOffset == old(rowOffset)
    {
      for i := 0 to |ps|
        invariant rows == old(rows)
        invariant tallestRow == old(tallestRow) && rowOffset == old(rowOffset)
      {
        var (row, column) := ps[i];
        assert rows[row][column] == '.';
        assert rows[row][column := '.'] == rows[row];
        rows := rows[row := rows[row][column := '.']];
      }
    }
  }

  /** `run` without its output: `count` rocks in the fixed order, jets taken
      cyclically; the tower height, or no result when the input is not a
      non-empty jet pattern. A rock adds at most four rows. */
  method Run(input: string, count: nat) returns (height: Option<int>)
    ensures height.Some? <==> Jets(input).Some? && Jets(input).value != []
    ensures height.Some? ==> height.value == StackHeight(Jets(input).value, count)
    ensures height.Some? ==> 0 <= height.value <= 4 * count
  {
    var jets := Jets(input);
    if jets.None? || jets.value == [] {
      return None;
    }
    var chamber := new Chamber();
    var next: nat := 0;
    ghost var target := Tower([], 0, jets.value, 0, 0, count);
    for i := 0 to count
      invariant chamber.Valid() && next < |jets.value|
      invariant 0 <= chamber.TowerHeight() <= 4 * i
      invariant Tower(chamber.rows, chamber.rowOffset, jets.value, next, i, count) == target
    {
      HeightRows(RockOrder(i));
      next := chamber.AddRock(RockOrder(i), jets.value, next);
    }
    height := Some(chamber.TowerHeight());
  }
}
