/** Day 2, "Rock Paper Scissors": each line names the opponent's shape and
    how the round must end; the player picks the shape that gives that end
    and scores its value plus the outcome. */
module Day2Strategy {
  import opened Text

  datatype Choice = Rock | Paper | Scissors

  datatype RoundEnd = Win | Lose | Draw

  /** The shape `c` defeats: each shape beats the one before it in the
      cycle Rock, Paper, Scissors. */
  function Defeats(c: Choice): Choice {
    match c
    case Rock => Scissors
    case Paper => Rock
    case Scissors => Paper
  }

  /** The shape that defeats `c`. */
  function DefeatedBy(c: Choice): (r: Choice)
    ensures Defeats(r) == c
  {
    match c
    case Rock => Paper
    case Paper => Scissors
    case Scissors => Rock
  }

  /** Every pair of shapes is a draw, a win for one, or a win for the other,
      and exactly one of these. */
  lemma Trichotomy(a: Choice, b: Choice)
    ensures a == b || Defeats(a) == b || Defeats(b) == a
    ensures !(Defeats(a) == b && Defeats(b) == a)
    ensures Defeats(a) != a
  { }

  /** The points an outcome is worth to the player. */
  function EndScore(e: RoundEnd): int {
    match e
    case Lose => 0
    case Draw => 3
    case Win => 6
  }

  /** `choose_based_on_end`: the player's shape that gives round end `e`
      against `opponent`. */
  function ChooseBasedOnEnd(opponent: Choice, e: RoundEnd): (r: Choice)
    ensures e == Draw ==> r == opponent
    ensures e == Win ==> Defeats(r) == opponent
    ensures e == Lose ==> Defeats(opponent) == r
  {
    match (opponent, e)
    case (choice, Draw) => choice
    case (Paper, Win) => Scissors
    case (Paper, Lose) => Rock
    case (Rock, Win) => Paper
    case (Rock, Lose) => Scissors
    case (Scissors, Win) => Rock
    case (Scissors, Lose) => Paper
  }

  /** `calculate_choice_value`. */
  function ChoiceValue(c: Choice): (v: int)
    ensures 1 <= v <= 3
    ensures c == Rock ==> v == 1
    ensures c == Paper ==> v == 2
    ensures c == Scissors ==> v == 3
  {
    match c
    case Rock => 1
    case Paper => 2
    case Scissors => 3
  }

  /** `calculate_score`: the outcome points from the player's side. */
  function Score(opponent: Choice, mine: Choice): (r: int)
    ensures r == 3 <==> opponent == mine
    ensures r == 6 <==> Defeats(mine) == opponent
    ensures r == 0 <==> Defeats(opponent) == mine
  {
    match (opponent, mine)
    case (Rock, Rock) => 3
    case (Paper, Paper) => 3
    case (Scissors, Scissors) => 3
    case (Paper, Rock) => 0
    case (Scissors, Rock) => 6
    case (Rock, Paper) => 6
    case (Scissors, Paper) => 0
    case (Rock, Scissors) => 0
    case (Paper, Scissors) => 6
  }

  /** What one player wins, the other loses: the two scores of a round add
      up to 6. */
  lemma {:induction false} ScoreComplement(a: Choice, b: Choice)
    ensures Score(a, b) + Score(b, a) == 6
  {
    Trichotomy(a, b);
  }

  /** The chosen shape gives exactly the requested end, and it is the only
      shape that does. */
  lemma {:induction false} ChoiceGivesEnd(opponent: Choice, e: RoundEnd, c: Choice)
    ensures Score(opponent, ChooseBasedOnEnd(opponent, e)) == EndScore(e)
    ensures Score(opponent, c) == EndScore(e) ==> c == ChooseBasedOnEnd(opponent, e)
  {
    Trichotomy(opponent, c);
    Trichotomy(opponent, ChooseBasedOnEnd(opponent, e));
  }

  /** What one round adds to the total: the chosen shape's value plus the
      outcome points, which is between 1 and 9. */
  function RoundScore(opponent: Choice, e: RoundEnd): (r: int)
    ensures 1 <= r <= 9
    ensures r == ChoiceValue(ChooseBasedOnEnd(opponent, e)) + EndScore(e)
  {
    ChoiceGivesEnd(opponent, e, ChooseBasedOnEnd(opponent, e));
    var mine := ChooseBasedOnEnd(opponent, e);
    ChoiceValue(mine) + Score(opponent, mine)
  }

  /** The opponent's column: "A", "B", "C". */
  function ParseChoice(w: string): (r: Option<Choice>)
    ensures r.Some? <==> w == "A" || w == "B" || w == "C"
  {
    if w == "A" then Some(Rock)
    else if w == "B" then Some(Paper)
    else if w == "C" then Some(Scissors)
    else None
  }

  /** The round-end column: "X", "Y", "Z" for lose, draw, win. */
  function ParseEnd(w: string): (r: Option<RoundEnd>)
    ensures r.Some? <==> w == "X" || w == "Y" || w == "Z"
  {
    if w == "X" then Some(Lose)
    else if w == "Y" then Some(Draw)
    else if w == "Z" then Some(Win)
    else None
  }

  /** One line of the strategy guide: the first two whitespace-separated
      words; fewer words or an unknown letter panics, given as `None`.
      Further words are ignored. */
  function ParseRound(line: string): (r: Option<(Choice, RoundEnd)>)
    ensures |Words(line)| < 2 ==> r.None?
    ensures r.Some? ==> ParseChoice(Words(line)[0]) == Some(r.value.0) && ParseEnd(Words(line)[1]) == Some(r.value.1)
  {
    var split := Words(line);
    if |split| < 2 then None
    else
      match (ParseChoice(split[0]), ParseEnd(split[1]))
      case (Some(c), Some(e)) => Some((c, e))
      case _ => None
  }

  function ChoiceLetter(c: Choice): string {
    match c
    case Rock => "A"
    case Paper => "B"
    case Scissors => "C"
  }

  function EndLetter(e: RoundEnd): string {
    match e
    case Lose => "X"
    case Draw => "Y"
    case Win => "Z"
  }

  /** Two words joined by a space are read as the round they name. */
  lemma ParseTwoWords(a: string, b: string)
    requires IsWord(a) && IsWord(b)
    ensures ParseRound(a + " " + b) ==
            match (ParseChoice(a), ParseEnd(b))
            case (Some(c), Some(e)) => Some((c, e))
            case _ => None
  {
    var ws := [a, b];
    assert Join(ws, ' ') == a + " " + b by {
      assert Join(ws[1..], ' ') == b;
    }
    WordsOfJoin(ws);
  }

  /** A line written as the guide writes it parses back to its round. */
  lemma ParseRoundFormatted(c: Choice, e: RoundEnd)
    ensures ParseRound(ChoiceLetter(c) + " " + EndLetter(e)) == Some((c, e))
  {
    var a, b := ChoiceLetter(c), EndLetter(e);
    assert IsWord(a) && IsWord(b) by {
      assert |a| == 1 && |b| == 1 && !IsWhitespace(a[0]) && !IsWhitespace(b[0]);
    }
    ParseTwoWords(a, b);
    assert ParseChoice(a) == Some(c) && ParseEnd(b) == Some(e);
  }
}
