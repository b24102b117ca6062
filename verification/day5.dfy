/** Day 5, "Supply Stacks": crates stacked in numbered columns are moved by
    a crane, either one crate at a time (the CrateMover 9000) or several at
    once keeping their order (the CrateMover 9001). Each stack lists its
    crates from bottom to top, so the top crate is the last one. */
module Day5Stacks {
  import opened Text

  const U16Max: nat := 65535

  /** `Move`: how many crates go from which stack to which; stacks are
      numbered from 1. */
  datatype Move = Move(startStack: nat, endStack: nat, cratesToMove: nat)

  // ------------------------------------------------------------ crane moves

  /** `pop_many`: takes the top `count` items off `v` (it panics when there
      are fewer) and returns them in their order in `v`, bottom first. */
  method PopMany<T>(v: seq<T>, count: nat) returns (rest: seq<T>, popped: seq<T>)
    requires count <= |v|
    ensures rest + popped == v
    ensures |popped| == count
  {
    rest, popped := v, [];
    for i := 0 to count
      invariant |rest| == |v| - i && rest + popped == v
    {
      var top := rest[|rest| - 1];
      assert rest == rest[..|rest| - 1] + [top];
      rest := rest[..|rest| - 1];
      popped := [top] + popped;
    }
  }

  /** The sum of the heights of all stacks. */
  function Total(stacks: seq<seq<char>>): nat {
    if stacks == [] then 0 else Total(stacks[..|stacks| - 1]) + |stacks[|stacks| - 1]|
  }

  /** Replacing one stack changes the total by the difference in height. */
  lemma {:induction false} TotalUpdate(stacks: seq<seq<char>>, k: nat, s: seq<char>)
    requires k < |stacks|
    ensures Total(stacks[k := s]) == Total(stacks) - |stacks[k]| + |s|
  {
    var n := |stacks|;
    if k < n - 1 {
      assert stacks[k := s][..n - 1] == stacks[..n - 1][k := s];
      TotalUpdate(stacks[..n - 1], k, s);
    } else {
      assert stacks[k := s][..n - 1] == stacks[..n - 1];
    }
  }

  /** A move is possible when both stack numbers name a stack and the
      crates to take are there: the crane panics otherwise. The CrateMover
      9000 touches the stacks only inside its loop over the crates, so
      moving no crate needs nothing, and moving within one stack needs
      only one crate to pop and push back. */
  predicate CanMove(stacks: seq<seq<char>>, m: Move, oneAtATime: bool) {
    (oneAtATime && m.cratesToMove == 0) ||
    (1 <= m.startStack <= |stacks| && 1 <= m.endStack <= |stacks| &&
     (if oneAtATime && m.startStack == m.endStack
      then stacks[m.startStack - 1] != []
      else m.cratesToMove <= |stacks[m.startStack - 1]|))
  }

  /** The stacks after a move that keeps the order of the moved crates
      (`reversed` false) or reverses it (`reversed` true). */
  function Moved(stacks: seq<seq<char>>, m: Move, reversed: bool): (r: seq<seq<char>>)
    requires CanMove(stacks, m, false)
  {
    var s := m.startStack - 1;
    var e := m.endStack - 1;
    var from := stacks[s];
    var keep := |from| - m.cratesToMove;
    if s == e then stacks
    else stacks[s := from[..keep]][e := stacks[e] + MovedBlock(from[keep..], reversed)]
  }

  function MovedBlock(block: seq<char>, reversed: bool): seq<char> {
    if reversed then Reverse(block) else block
  }

  /** A move keeps the number of stacks and of crates, and leaves every
      stack other than the two it names alone. */
  lemma MovedKeepsTotal(stacks: seq<seq<char>>, m: Move, reversed: bool)
    requires CanMove(stacks, m, false)
    ensures |Moved(stacks, m, reversed)| == |stacks|
    ensures Total(Moved(stacks, m, reversed)) == Total(stacks)
    ensures forall k | 0 <= k < |stacks| && k != m.startStack - 1 && k != m.endStack - 1 ::
              Moved(stacks, m, reversed)[k] == stacks[k]
  {
    var s := m.startStack - 1;
    var e := m.endStack - 1;
    var from := stacks[s];
    var keep := |from| - m.cratesToMove;
    if s != e {
      var src, dst := from[..keep], stacks[e] + MovedBlock(from[keep..], reversed);
      assert |src| + |dst| == |from| + |stacks[e]|;
      assert Moved(stacks, m, reversed) == stacks[s := src][e := dst];
      TotalUpdate(stacks, s, src);
      TotalUpdate(stacks[s := src], e, dst);
    }
  }

  /** After a CrateMover 9001 move the destination ends with the moved crates
      in their original order, and the source keeps what lay beneath them. */
  lemma Moved9001Order(stacks: seq<seq<char>>, m: Move)
    requires CanMove(stacks, m, false) && m.startStack != m.endStack
    ensures var from := stacks[m.startStack - 1];
            var moved := Moved(stacks, m, false);
            moved[m.startStack - 1] + from[|from| - m.cratesToMove..] == from &&
            moved[m.endStack - 1] == stacks[m.endStack - 1] + from[|from| - m.cratesToMove..]
  {
    var from := stacks[m.startStack - 1];
    assert from[..|from| - m.cratesToMove] + from[|from| - m.cratesToMove..] == from;
  }

  /** The two cranes leave the same crates on the same stacks; on the
      destination the CrateMover 9000 has them in the reverse order. */
  lemma CranesDifferByReversal(stacks: seq<seq<char>>, m: Move)
    requires CanMove(stacks, m, false) && m.startStack != m.endStack
    ensures var n := |stacks[m.endStack - 1]|;
            var a := Moved(stacks, m, false);
            var b := Moved(stacks, m, true);
            a[m.startStack - 1] == b[m.startStack - 1] &&
            a[m.endStack - 1][..n] == b[m.endStack - 1][..n] == stacks[m.endStack - 1] &&
            b[m.endStack - 1][n..] == Reverse(a[m.endStack - 1][n..])
  {
    var n := |stacks[m.endStack - 1]|;
    var from := stacks[m.startStack - 1];
    var block := from[|from| - m.cratesToMove..];
    assert Moved(stacks, m, false)[m.endStack - 1][n..] == block;
    assert Moved(stacks, m, true)[m.endStack - 1][n..] == Reverse(block);
  }

  /** `move_crates_9001`: one `pop_many` from the source and one `extend`
      onto the destination. */
  method MoveCrates9001(world: array<seq<char>>, m: Move)
    requires CanMove(world[..], m, false)
    modifies world
    ensures world[..] == Moved(old(world[..]), m, false)
  {
    var rest, toMove := PopMany(world[m.startStack - 1], m.cratesToMove);
    world[m.startStack - 1] := rest;
    world[m.endStack - 1] := world[m.endStack - 1] + toMove;
  }

  /** `move_crates`: `cratesToMove` single pops and pushes, so the crates
      arrive in reverse order. */
  method MoveCrates(world: array<seq<char>>, m: Move)
    requires CanMove(world[..], m, true)
    modifies world
    ensures m.startStack == m.endStack || m.cratesToMove == 0 ==> world[..] == old(world[..])
    ensures m.startStack != m.endStack && CanMove(old(world[..]), m, false) ==>
      world[..] == Moved(old(world[..]), m, true)
  {
    ghost var stacks := world[..];
    var s := m.startStack - 1;
    var e := m.endStack - 1;
    if s != e && CanMove(stacks, m, false) {
      MovedNothing(stacks, Move(m.startStack, m.endStack, 0), true);
    }
    for i := 0 to m.cratesToMove
      invariant s == e || m.cratesToMove == 0 ==> world[..] == stacks
      invariant s != e && m.cratesToMove > 0 ==> world[..] == Moved(stacks, Move(m.startStack, m.endStack, i), true)
    {
      ghost var before := world[..];
      var crate := world[s][|world[s]| - 1];
      world[s] := world[s][..|world[s]| - 1];
      world[e] := world[e] + [crate];
      if s == e {
        assert world[e] == before[e];
        assert world[..] == before;
      } else {
        OneMoreCrate(stacks, m, i);
      }
    }
  }

  /** Moving one more crate, one at a time, puts the next crate on top of
      the destination. */
  lemma OneMoreCrate(stacks: seq<seq<char>>, m: Move, i: nat)
    requires CanMove(stacks, m, false) && m.startStack != m.endStack && i < m.cratesToMove
    ensures var before := Moved(stacks, Move(m.startStack, m.endStack, i), true);
            var s := m.startStack - 1;
            var e := m.endStack - 1;
            before[s] != [] &&
            Moved(stacks, Move(m.startStack, m.endStack, i + 1), true) ==
              before[s := before[s][..|before[s]| - 1]][e := before[e] + [before[s][|before[s]| - 1]]]
  {
    var s := m.startStack - 1;
    var e := m.endStack - 1;
    var from := stacks[s];
    var n := |from|;
    var top := from[n - 1 - i];
    var src, dst := from[..n - i], stacks[e] + Reverse(from[n - i..]);
    assert Moved(stacks, Move(m.startStack, m.endStack, i), true) == stacks[s := src][e := dst];
    assert Moved(stacks, Move(m.startStack, m.endStack, i + 1), true) ==
           stacks[s := from[..n - (i + 1)]][e := stacks[e] + Reverse(from[n - (i + 1)..])];
    assert from[n - (i + 1)..] == [top] + from[n - i..];
    ReverseCons(top, from[n - i..]);
    assert src[..|src| - 1] == from[..n - (i + 1)] && src[|src| - 1] == top;
    assert stacks[e] + Reverse(from[n - (i + 1)..]) == dst + [top];
    assert stacks[s := src][e := dst][s] == src && stacks[s := src][e := dst][e] == dst;
    UpdateTwice(stacks, s, e, src, dst, src[..|src| - 1], dst + [top]);
  }

  /** Updating the same two positions twice keeps only the second values. */
  lemma UpdateTwice<T>(t: seq<T>, s: nat, e: nat, a: T, b: T, c: T, d: T)
    requires s < |t| && e < |t| && s != e
    ensures t[s := a][e := b][s := c][e := d] == t[s := c][e := d]
  {
  }

  lemma ReverseCons<T>(x: T, t: seq<T>)
    ensures Reverse([x] + t) == Reverse(t) + [x]
  {
    assert ([x] + t)[1..] == t;
  }

  /** Moving no crate changes nothing. */
  lemma MovedNothing(stacks: seq<seq<char>>, m: Move, reversed: bool)
    requires CanMove(stacks, m, false) && m.cratesToMove == 0
    ensures Moved(stacks, m, reversed) == stacks
  {
    var from := stacks[m.startStack - 1];
    assert from[|from|..] == [] && from[..|from|] == from;
    assert stacks[m.endStack - 1] + [] == stacks[m.endStack - 1];
  }

  // ---------------------------------------------------------------- parsing

  /** `parse_move`: words 1, 3 and 5 of "move N from A to B" as `u16`s;
      None where the source panics (too few words, a bad number). */
  function ParseMove(line: string): (r: Option<Move>)
    ensures r.Some? ==> r.value.startStack <= U16Max && r.value.endStack <= U16Max &&
                        r.value.cratesToMove <= U16Max
  {
    var words := Words(line);
    if |words| < 6 then None
    else
      match (ParseNat(words[1], U16Max), ParseNat(words[3], U16Max), ParseNat(words[5], U16Max))
      case (Some(n), Some(a), Some(b)) => Some(Move(a, b, n))
      case _ => None
  }

  /** The line the puzzle writes for a move: "move N from A to B". */
  function MoveText(m: Move): string {
    Join(["move", NatToString(m.cratesToMove), "from", NatToString(m.startStack),
          "to", NatToString(m.endStack)], ' ')
  }

  /** The line the puzzle writes for a move parses back to that move. */
  lemma ParseMoveOfText(m: Move)
    requires m.startStack <= U16Max && m.endStack <= U16Max && m.cratesToMove <= U16Max
    ensures ParseMove(MoveText(m)) == Some(m)
  {
    var n, a, b := NatToString(m.cratesToMove), NatToString(m.startStack), NatToString(m.endStack);
    var ws := ["move", n, "from", a, "to", b];
    DigitsAreWord(n);
    DigitsAreWord(a);
    DigitsAreWord(b);
    KeywordsAreWords();
    WordsOfJoin(ws);
    ParseNatToString(m.cratesToMove, U16Max);
    ParseNatToString(m.startStack, U16Max);
    ParseNatToString(m.endStack, U16Max);
  }

  lemma KeywordsAreWords()
    ensures forall i | 0 <= i < |"move"| :: !IsWhitespace("move"[i])
    ensures forall i | 0 <= i < |"from"| :: !IsWhitespace("from"[i])
    ensures forall i | 0 <= i < |"to"| :: !IsWhitespace("to"[i])
  {
  }

  lemma DigitsAreWord(s: string)
    requires s != [] && AllDigits(s)
    ensures forall i | 0 <= i < |s| :: !IsWhitespace(s[i])
  {
    forall i | 0 <= i < |s| ensures !IsWhitespace(s[i]) {
      assert IsDigit(s[i]);
    }
  }

  /** What a header line shows in column `k` (characters `4k` and `4k + 1`):
      None where the source panics (the line is too short, or a '[' with
      no crate letter), Some(None) for no crate, Some(Some(c)) for crate c. */
  function Cell(line: string, k: nat): Option<Option<char>> {
    if |line| < 4 * k + 2 then None
    else
      var cleaned := Trim(line[4 * k..4 * k + 2]);
      if cleaned == [] || cleaned[0] != '[' then Some(None)
      else
        var inner := TrimEndMatches(TrimStartMatches(cleaned, '['), ']');
        if inner == [] then None else Some(Some(inner[0]))
  }

  /** A drawn crate "[c" in column `k` reads as crate `c`. */
  lemma CellOfCrate(line: string, k: nat, c: char)
    requires |line| >= 4 * k + 2 && line[4 * k] == '[' && line[4 * k + 1] == c
    requires !IsWhitespace(c) && c != '[' && c != ']'
    ensures Cell(line, k) == Some(Some(c))
  {
    var slice := line[4 * k..4 * k + 2];
    assert slice == ['[', c];
    TrimOfPadded([], slice, []);
    assert [] + slice + [] == slice;
    assert TrimStartMatches(slice, '[') == [c] by {
      assert slice[1..] == [c];
    }
  }

  /** Two blanks in column `k` read as no crate. */
  lemma CellOfGap(line: string, k: nat)
    requires |line| >= 4 * k + 2 && line[4 * k] == ' ' && line[4 * k + 1] == ' '
    ensures Cell(line, k) == Some(None)
  {
    var slice := line[4 * k..4 * k + 2];
    assert TrimStart(slice[1..]) == [];
  }

  /** The header: the lines before the first blank one (`take_while`). */
  function Header(lines: seq<string>): (h: seq<string>)
    ensures |h| <= |lines| && h == lines[..|h|]
    ensures forall i | 0 <= i < |h| :: Trim(h[i]) != []
    ensures |h| < |lines| ==> Trim(lines[|h|]) == []
  {
    var n := HeaderLength(lines, 0);
    assert forall j | 0 <= j < n :: Trim(lines[j]) != [] by {
      forall j | 0 <= j < n ensures Trim(lines[j]) != [] {
        BeforeHeaderEnd(lines, 0, j);
      }
    }
    lines[..n]
  }

  /** The index of the first blank line at or after `i`, or the number of
      lines when there is none. */
  function HeaderLength(lines: seq<string>, i: nat): (n: nat)
    requires i <= |lines|
    ensures i <= n <= |lines|
    ensures n < |lines| ==> Trim(lines[n]) == []
    decreases |lines| - i
  {
    if i == |lines| then i
    else if Trim(lines[i]) == [] then i
    else HeaderLength(lines, i + 1)
  }

  /** No line between `i` and the end of the header is blank. */
  lemma {:induction false} BeforeHeaderEnd(lines: seq<string>, i: nat, j: nat)
    requires i <= |lines| && i <= j < HeaderLength(lines, i)
    ensures Trim(lines[j]) != []
    decreases j - i
  {
    if j > i {
      BeforeHeaderEnd(lines, i + 1, j);
    }
  }

  /** The crates in column `k` of `lines`, top first. */
  function TopDown(lines: seq<string>, k: nat): Option<seq<char>> {
    if lines == [] then Some([])
    else
      match (TopDown(lines[..|lines| - 1], k), Cell(lines[|lines| - 1], k))
      case (Some(crates), Some(None)) => Some(crates)
      case (Some(crates), Some(Some(c))) => Some(crates + [c])
      case _ => None
  }

  /** `parse_stack`: scan the header top to bottom collecting the crates of
      column `k`, then reverse them so the bottom crate comes first. */
  method ParseStack(input: string, k: nat) returns (r: Option<seq<char>>)
    ensures r == (match TopDown(Header(Lines(input)), k)
                  case Some(crates) => Some(Reverse(crates))
                  case None => None)
  {
    var header := Header(Lines(input));
    var crates: seq<char> := [];
    for i := 0 to |header|
      invariant TopDown(header[..i], k) == Some(crates)
    {
      TopDownNext(header, k, i);
      match Cell(header[i], k)
      case None =>
        FailureStays(header, k, i + 1);
        return None;
      case Some(None) =>
      case Some(Some(c)) =>
        crates := crates + [c];
    }
    assert header[..|header|] == header;
    return Some(Reverse(crates));
  }

  /** One more line of the scan. */
  lemma TopDownNext(lines: seq<string>, k: nat, i: nat)
    requires i < |lines|
    ensures TopDown(lines[..i + 1], k) ==
              match (TopDown(lines[..i], k), Cell(lines[i], k))
              case (Some(crates), Some(None)) => Some(crates)
              case (Some(crates), Some(Some(c))) => Some(crates + [c])
              case _ => None
  {
    assert lines[..i + 1][..i] == lines[..i];
  }

  /** Once a line makes the scan fail, the whole header fails. */
  lemma {:induction false} FailureStays(lines: seq<string>, k: nat, i: nat)
    requires 0 < i <= |lines| && TopDown(lines[..i], k).None?
    ensures TopDown(lines, k).None?
    decreases |lines| - i
  {
    if i < |lines| {
      assert lines[..i + 1][..i] == lines[..i];
      FailureStays(lines, k, i + 1);
    } else {
      assert lines[..i] == lines;
    }
  }

  /** The stack numbers under the drawing are not crates. */
  lemma NumberCell(line: string, k: nat, d: char)
    requires |line| >= 4 * k + 2 && line[4 * k] == ' ' && IsDigit(line[4 * k + 1])
    requires line[4 * k + 1] == d
    ensures Cell(line, k) == Some(None)
  {
    var slice := line[4 * k..4 * k + 2];
    assert slice[1..] == [d];
    assert TrimStart(slice) == [d];
  }
}
