/** Day 8, "Treetop Tree House": a grid of tree heights. A tree is visible
    from outside the grid when every tree between it and some edge is
    shorter; its scenic score multiplies how far it can see in each of the
    four directions. */
module Day8Forest {
  import opened Text

  /** `Forest`: the heights row by row, and the grid's dimensions, taken
      from the number of rows and the length of the first one. */
  datatype Forest = Forest(trees: seq<seq<nat>>, rows: nat, columns: nat)

  /** Every row has `columns` trees. */
  predicate Rectangular(f: Forest) {
    |f.trees| == f.rows && forall i | 0 <= i < f.rows :: |f.trees[i]| == f.columns
  }

  predicate InGrid(f: Forest, r: nat, c: nat) {
    Rectangular(f) && r < f.rows && c < f.columns
  }

  // ---------------------------------------------------------------- parsing

  /** `char::to_digit(10)`. */
  function DigitOf(c: char): (r: Option<nat>)
    ensures r.Some? <==> IsDigit(c)
    ensures r.Some? ==> r.value <= 9 && r.value == c as int - '0' as int
  {
    if IsDigit(c) then Some(c as int - '0' as int) else None
  }

  /** One line of the grid: every character must be a digit. */
  function ParseRow(line: string): (r: Option<seq<nat>>)
    ensures r.Some? <==> AllDigits(line)
    ensures r.Some? ==> |r.value| == |line|
    ensures r.Some? ==> forall j | 0 <= j < |line| :: r.value[j] == line[j] as int - '0' as int
  {
    var digits := seq(|line|, j requires 0 <= j < |line| => DigitOf(line[j]));
    assert forall j | 0 <= j < |line| :: digits[j] == DigitOf(line[j]);
    AllSome(digits)
  }

  /** `Forest::new` on the lines of the input: a non-digit panics, and so
      does taking the first row of an empty grid. */
  function ParseForest(lines: seq<string>): (r: Option<Forest>)
    ensures r.Some? <==> lines != [] && forall i | 0 <= i < |lines| :: AllDigits(lines[i])
    ensures r.Some? ==> r.value.rows == |lines| == |r.value.trees| && r.value.columns == |lines[0]|
    ensures r.Some? ==> forall i | 0 <= i < |lines| :: ParseRow(lines[i]) == Some(r.value.trees[i])
  {
    var parsed := seq(|lines|, i requires 0 <= i < |lines| => ParseRow(lines[i]));
    assert forall i | 0 <= i < |lines| :: parsed[i] == ParseRow(lines[i]);
    match AllSome(parsed)
    case None => None
    case Some(trees) =>
      if trees == [] then None
      else
        assert forall i | 0 <= i < |lines| :: parsed[i] == Some(trees[i]);
        Some(Forest(trees, |trees|, |trees[0]|))
  }

  /** A row of heights written as digits. */
  function RowText(row: seq<nat>): (line: string)
    requires forall j | 0 <= j < |row| :: row[j] <= 9
    ensures |line| == |row| && AllDigits(line)
    ensures forall j | 0 <= j < |row| :: line[j] as int - '0' as int == row[j]
  {
    seq(|row|, j requires 0 <= j < |row| => ('0' as int + row[j]) as char)
  }

  function GridLines(trees: seq<seq<nat>>): (lines: seq<string>)
    requires forall i, j | 0 <= i < |trees| && 0 <= j < |trees[i]| :: trees[i][j] <= 9
    ensures |lines| == |trees|
    ensures forall i | 0 <= i < |trees| :: lines[i] == RowText(trees[i])
  {
    seq(|trees|, i requires 0 <= i < |trees| => RowText(trees[i]))
  }

  /** A rectangular grid of digits written one row per line parses back. */
  lemma ParseForestText(trees: seq<seq<nat>>)
    requires trees != [] && trees[0] != []
    requires forall i | 0 <= i < |trees| :: |trees[i]| == |trees[0]|
    requires forall i, j | 0 <= i < |trees| && 0 <= j < |trees[i]| :: trees[i][j] <= 9
    ensures ParseForest(Lines(Join(GridLines(trees), '\n'))) == Some(Forest(trees, |trees|, |trees[0]|))
    ensures Rectangular(Forest(trees, |trees|, |trees[0]|))
  {
    var lines := GridLines(trees);
    forall k | 0 <= k < |lines|
      ensures lines[k] != [] && '\n' !in lines[k] && lines[k][|lines[k]| - 1] != '\r'
      ensures ParseRow(lines[k]) == Some(trees[k])
    {
      RowTextFacts(trees[k]);
      ParseRowText(trees[k]);
    }
    LinesOfJoin(lines);
    var r := ParseForest(lines);
    assert r.value.trees == trees;
  }

  lemma RowTextFacts(row: seq<nat>)
    requires row != [] && forall j | 0 <= j < |row| :: row[j] <= 9
    ensures RowText(row) != [] && '\n' !in RowText(row) && RowText(row)[|RowText(row)| - 1] != '\r'
  {
    var line := RowText(row);
    assert forall j | 0 <= j < |line| :: IsDigit(line[j]);
  }

  lemma ParseRowText(row: seq<nat>)
    requires forall j | 0 <= j < |row| :: row[j] <= 9
    ensures ParseRow(RowText(row)) == Some(row)
  {
    var r := ParseRow(RowText(row));
    assert r.value == row;
  }

  // ------------------------------------------------------------ sight lines

  datatype Side = Left | Right | Top | Bottom

  /** The trees between (r, c) and the edge on `side`, nearest first. */
  function Sight(f: Forest, r: nat, c: nat, side: Side): (s: seq<nat>)
    requires InGrid(f, r, c)
    ensures |s| == match side
                   case Left => c
                   case Right => f.columns - c - 1
                   case Top => r
                   case Bottom => f.rows - r - 1
  {
    match side
    case Left => seq(c, i requires 0 <= i < c => f.trees[r][c - 1 - i])
    case Right => seq(f.columns - c - 1, i requires 0 <= i < f.columns - c - 1 => f.trees[r][c + 1 + i])
    case Top => seq(r, i requires 0 <= i < r => f.trees[r - 1 - i][c])
    case Bottom => seq(f.rows - r - 1, i requires 0 <= i < f.rows - r - 1 => f.trees[r + 1 + i][c])
  }

  /** The tree is on the edge of the grid. */
  predicate Border(f: Forest, r: nat, c: nat) {
    r == 0 || c == 0 || r == f.rows - 1 || c == f.columns - 1
  }

  /** Border trees are exactly those with nothing between them and some
      edge. */
  lemma BorderSight(f: Forest, r: nat, c: nat)
    requires InGrid(f, r, c)
    ensures Border(f, r, c) <==> Sight(f, r, c, Left) == [] || Sight(f, r, c, Right) == []
                                 || Sight(f, r, c, Top) == [] || Sight(f, r, c, Bottom) == []
  { }

  /** Every tree of `s` is shorter than `h`. */
  predicate AllShorter(s: seq<nat>, h: nat) {
    forall i | 0 <= i < |s| :: s[i] < h
  }

  /** The tree can be seen from outside the grid along at least one side. */
  predicate Visible(f: Forest, r: nat, c: nat)
    requires InGrid(f, r, c)
  {
    var h := f.trees[r][c];
    AllShorter(Sight(f, r, c, Left), h) || AllShorter(Sight(f, r, c, Right), h)
    || AllShorter(Sight(f, r, c, Top), h) || AllShorter(Sight(f, r, c, Bottom), h)
  }

  /** How many trees of `s` can be seen from a tree of height `h`: up to and
      including the first one at least as tall, or all of them. */
  function ViewingDistance(s: seq<nat>, h: nat): (n: nat)
    ensures n <= |s| && (s != [] ==> n >= 1)
    ensures forall i | 0 <= i < n - 1 :: s[i] < h
    ensures n == |s| || s[n - 1] >= h
  {
    if s == [] then 0
    else if s[0] < h then
      var n := 1 + ViewingDistance(s[1..], h);
      assert forall i | 1 <= i < n - 1 :: s[i] == s[1..][i - 1];
      n
    else 1
  }

  /** The scenic score: the four viewing distances multiplied. */
  function Score(f: Forest, r: nat, c: nat): nat
    requires InGrid(f, r, c)
  {
    var h := f.trees[r][c];
    Product(ViewingDistance(Sight(f, r, c, Left), h), ViewingDistance(Sight(f, r, c, Right), h),
            ViewingDistance(Sight(f, r, c, Top), h), ViewingDistance(Sight(f, r, c, Bottom), h))
  }

  /** `a * b * d * e`, which is zero exactly when one of the four is. */
  function Product(a: nat, b: nat, d: nat, e: nat): (p: nat)
    ensures p == a * b * d * e
    ensures p == 0 <==> a == 0 || b == 0 || d == 0 || e == 0
  {
    MulNonNegative(a, b);
    MulNonNegative(a * b, d);
    MulNonNegative(a * b * d, e);
    if a == 0 || b == 0 || d == 0 || e == 0 then
      assert a * b * d * e == 0;
      0
    else
      MulPositive(a, b, d, e);
      a * b * d * e
  }

  /** Every border tree is visible. */
  lemma BorderVisible(f: Forest, r: nat, c: nat)
    requires InGrid(f, r, c) && Border(f, r, c)
    ensures Visible(f, r, c)
  {
    BorderSight(f, r, c);
  }

  /** The score is zero exactly on the border: an interior tree sees at
      least one tree in each direction. */
  lemma ScoreZeroOnBorder(f: Forest, r: nat, c: nat)
    requires InGrid(f, r, c)
    ensures Score(f, r, c) == 0 <==> Border(f, r, c)
  {
    BorderSight(f, r, c);
  }

  lemma MulPositive(a: nat, b: nat, d: nat, e: nat)
    requires a >= 1 && b >= 1 && d >= 1 && e >= 1
    ensures a * b * d * e >= 1
  {
    MulNonNegative(a - 1, b - 1);
    assert a * b >= 1;
    MulNonNegative(a * b - 1, d - 1);
    assert a * b * d >= 1;
    MulNonNegative(a * b * d - 1, e - 1);
  }

  // ---------------------------------------------------------------- scans

  /** One of the flag loops of `is_visible`: the flag drops as soon as a
      tree at least as tall as `h` goes by, and the loop runs to the end. */
  method NoneAsTall(line: seq<nat>, h: nat) returns (visible: bool)
    ensures visible <==> AllShorter(line, h)
  {
    visible := true;
    for k := 0 to |line|
      invariant visible <==> AllShorter(line[..k], h)
    {
      if line[k] >= h {
        visible := false;
      }
      assert line[..k + 1] == line[..k] + [line[k]];
    }
    assert line[..|line|] == line;
  }

  /** One of the counting loops of `scenic_score`: one more for every tree,
      and stop after the first one at least as tall as `h`. */
  method CountSeen(line: seq<nat>, h: nat) returns (n: nat)
    ensures n == ViewingDistance(line, h)
  {
    n := 0;
    for k := 0 to |line|
      invariant n == k && AllShorter(line[..k], h)
    {
      if line[k] < h {
        n := n + 1;
      } else {
        n := n + 1;
        SeenUpTo(line, h, k);
        break;
      }
      assert line[..k + 1] == line[..k] + [line[k]];
    }
    if AllShorter(line, h) {
      SeenAll(line, h);
    }
  }

  /** The viewing distance ends at the first tree at least as tall. */
  lemma {:induction false} SeenUpTo(s: seq<nat>, h: nat, k: nat)
    requires k < |s| && AllShorter(s[..k], h) && s[k] >= h
    ensures ViewingDistance(s, h) == k + 1
  {
    if k > 0 {
      assert s[1..][..k - 1] == s[..k][1..];
      SeenUpTo(s[1..], h, k - 1);
    }
  }

  /** With no tree as tall, every tree is seen. */
  lemma {:induction false} SeenAll(s: seq<nat>, h: nat)
    requires AllShorter(s, h)
    ensures ViewingDistance(s, h) == |s|
  {
    if s != [] {
      SeenAll(s[1..], h);
    }
  }

  /** The column of trees at `c`, top row first. */
  function Column(f: Forest, c: nat): (col: seq<nat>)
    requires Rectangular(f) && c < f.columns
    ensures |col| == f.rows && forall i | 0 <= i < f.rows :: col[i] == f.trees[i][c]
  {
    seq(f.rows, i requires 0 <= i < f.rows => f.trees[i][c])
  }

  /** The slices `is_visible` and `scenic_score` walk are the sight lines,
      the left and top ones walked in either order. */
  lemma SlicesAreSights(f: Forest, r: nat, c: nat)
    requires InGrid(f, r, c)
    ensures Reverse(f.trees[r][..c]) == Sight(f, r, c, Left)
    ensures f.trees[r][c + 1..] == Sight(f, r, c, Right)
    ensures Reverse(Column(f, c)[..r]) == Sight(f, r, c, Top)
    ensures Column(f, c)[r + 1..] == Sight(f, r, c, Bottom)
  { }

  lemma ShorterReversed(s: seq<nat>, h: nat)
    ensures AllShorter(Reverse(s), h) <==> AllShorter(s, h)
  {
    var t := Reverse(s);
    if AllShorter(t, h) {
      forall i | 0 <= i < |s| ensures s[i] < h {
        assert s[i] == t[|s| - 1 - i];
      }
    }
  }

  /** `is_visible`: border trees at once, otherwise the four flag loops. */
  method IsVisible(f: Forest, r: nat, c: nat) returns (visible: bool)
    requires InGrid(f, r, c)
    ensures visible <==> Visible(f, r, c)
  {
    if r == 0 || c == 0 || r == f.rows - 1 || c == f.columns - 1 {
      BorderVisible(f, r, c);
      return true;
    }
    var tree := f.trees[r][c];
    var fromLeft := NoneAsTall(f.trees[r][..c], tree);
    var fromRight := NoneAsTall(f.trees[r][c + 1..], tree);
    var column := Column(f, c);
    var fromTop := NoneAsTall(column[..r], tree);
    var fromBottom := NoneAsTall(column[r + 1..], tree);
    SlicesAreSights(f, r, c);
    ShorterReversed(f.trees[r][..c], tree);
    ShorterReversed(column[..r], tree);
    visible := fromBottom || fromTop || fromLeft || fromRight;
  }

  /** `scenic_score`: zero on the border, otherwise the product of the four
      counting loops. */
  method ScenicScore(f: Forest, r: nat, c: nat) returns (score: nat)
    requires InGrid(f, r, c)
    ensures score == Score(f, r, c)
    ensures score == 0 <==> Border(f, r, c)
  {
    ScoreZeroOnBorder(f, r, c);
    var tree := f.trees[r][c];
    if r == 0 || c == 0 || r == f.rows - 1 || c == f.columns - 1 {
      return 0;
    }
    SlicesAreSights(f, r, c);
    var column := Column(f, c);
    var onLeft := CountSeen(Reverse(f.trees[r][..c]), tree);
    var onRight := CountSeen(f.trees[r][c + 1..], tree);
    var onTop := CountSeen(Reverse(column[..r]), tree);
    var onBottom := CountSeen(column[r + 1..], tree);
    score := Product(onLeft, onRight, onTop, onBottom);
  }
}
