/** Day 11 (Monkey in the Middle): monkeys hold items with worry levels; on
    its turn a monkey raises each item's worry by its operation, reduces it
    modulo the product of all divisors, and throws it to one of two monkeys
    depending on divisibility. */
module Day11Monkeys {
  import opened Text

  /** Largest `u64`, which is also the largest `usize` on a 64-bit target. */
  const U64Max: int := 0xffff_ffff_ffff_ffff

  datatype Operation = Sum(value: nat) | Product(value: nat) | Square

  datatype Monkey = Monkey(
    items: seq<nat>,
    operation: Operation,
    divisibleBy: nat,
    ifTrue: nat,
    ifFalse: nat,
    inspected: nat)

  // ----------------------------------------------------------------- parsing

  /** `Monkey::parse_operation`: after the '=', "old * old" is squaring,
      "old + n" and "old * n" add or multiply a `u64` constant; anything else
      (a panic in the source) gives None. */
  function ParseOperation(op: string): (r: Option<Operation>)
    ensures r.Some? ==> SplitOnce(op, "=").Some?
    ensures r.Some? ==> Representable(r.value)
  {
    match SplitOnce(op, "=")
    case None => None
    case Some((_, rhs)) => OperationOfParts(Split(Trim(rhs), ' '))
  }

  /** The match on the first three space-separated parts. */
  function OperationOfParts(parts: seq<string>): (r: Option<Operation>)
    ensures r.Some? ==> |parts| >= 3 && parts[0] == "old" && (parts[1] == "+" || parts[1] == "*")
    ensures r == Some(Square) <==> |parts| >= 3 && parts[0] == "old" && parts[1] == "*" && parts[2] == "old"
    ensures r.Some? && !r.value.Square? ==> ParseNat(parts[2], U64Max) == Some(r.value.value)
    ensures r.Some? && r.value.Sum? <==> |parts| >= 3 && parts[0] == "old" && parts[1] == "+" && ParseNat(parts[2], U64Max).Some?
  {
    if |parts| < 3 || parts[0] != "old" then None
    else if parts[1] == "*" && parts[2] == "old" then Some(Square)
    else if parts[1] == "+" || parts[1] == "*" then
      match ParseNat(parts[2], U64Max)
      case None => None
      case Some(v) => Some(if parts[1] == "+" then Sum(v) else Product(v))
    else None
  }

  /** The operations whose constant fits a `u64`. */
  predicate Representable(op: Operation) {
    op.Square? || op.value <= U64Max
  }

  function Symbol(op: Operation): string {
    if op.Sum? then "+" else "*"
  }

  function Operand(op: Operation): string {
    if op.Square? then "old" else NatToString(op.value)
  }

  /** The right-hand side of an operation line, as the input writes it. */
  function OperationText(op: Operation): string {
    Join(["old", Symbol(op), Operand(op)], ' ')
  }

  /** The written operation splits into its three parts, which parse back. */
  lemma OperationOfText(op: Operation)
    requires Representable(op)
    ensures OperationOfParts(Split(OperationText(op), ' ')) == Some(op)
  {
    SplitOperation(op);
    PartsOf(op);
  }

  lemma SplitOperation(op: Operation)
    ensures Split(OperationText(op), ' ') == ["old", Symbol(op), Operand(op)]
  {
    OperatorWords();
    var parts := ["old", Symbol(op), Operand(op)];
    assert ' ' !in Operand(op) by {
      if !op.Square? {
        assert AllDigits(NatToString(op.value));
      }
    }
    assert forall k | 0 <= k < 3 :: ' ' !in parts[k];
    SplitJoin(parts, ' ');
  }

  lemma PartsOf(op: Operation)
    requires Representable(op)
    ensures OperationOfParts(["old", Symbol(op), Operand(op)]) == Some(op)
  {
    if !op.Square? {
      ParseNatToString(op.value, U64Max);
      assert IsDigit(Operand(op)[0]);
      assert Operand(op) != "old";
    }
  }

  /** The written operation starts with 'o', ends in a non-blank character
      and is a single line. */
  lemma OperationTextEnds(op: Operation)
    ensures var text := OperationText(op);
      text != [] && text[0] == 'o' && '\n' !in text &&
      !IsWhitespace(text[|text| - 1]) && text[|text| - 1] != '\r'
  {
    var parts := ["old", Symbol(op), Operand(op)];
    assert Join(parts[2..], ' ') == Operand(op);
    assert Join(parts[1..], ' ') == Symbol(op) + [' '] + Operand(op);
    var digits := Operand(op);
    assert digits != [] && '\n' !in digits && !IsWhitespace(digits[|digits| - 1]) && digits[|digits| - 1] != '\r' by {
      if !op.Square? {
        assert AllDigits(NatToString(op.value));
      }
    }
  }

  /** The operation text of a line: the source parses what follows '='. */
  lemma ParseOperationOf(front: string, rest: string)
    requires '=' !in front
    ensures ParseOperation(front + "=" + rest) == OperationOfParts(Split(Trim(rest), ' '))
  {
    SplitOnceAtPattern(front, "=", rest);
  }

  /** The text after the first `key` of a line. */
  function Field(line: string, key: string): Option<string> {
    match SplitOnce(line, key)
    case None => None
    case Some((_, rest)) => Some(rest)
  }

  /** The field after a keyword whose first character the front lacks. */
  lemma FieldOf(front: string, key: string, rest: string)
    requires key != [] && key[0] !in front
    ensures Field(front + key + rest, key) == Some(rest)
  {
    SplitOnceAtPattern(front, key, rest);
  }

  /** The trimmed `u64` after the first `keyword` of a line. */
  function NumberAfter(line: string, keyword: string): (r: Option<nat>)
    ensures r.Some? ==> r.value <= U64Max
  {
    match Field(line, keyword)
    case None => None
    case Some(rest) => ParseNat(Trim(rest), U64Max)
  }

  /** A number written after a space trims and parses back. */
  lemma TrimmedNumber(n: nat)
    requires n <= U64Max
    ensures ParseNat(Trim(" " + NatToString(n)), U64Max) == Some(n)
  {
    var digits := NatToString(n);
    TrimOfPadded(" ", digits, "");
    assert " " + digits + "" == " " + digits;
    ParseNatToString(n, U64Max);
  }

  /** The number after a keyword is read from the rest of the line. */
  lemma NumberAfterOf(front: string, key: string, rest: string, n: nat)
    requires key != [] && key[0] !in front && ParseNat(Trim(rest), U64Max) == Some(n)
    ensures NumberAfter(front + key + rest, key) == Some(n)
  {
    FieldOf(front, key, rest);
  }

  /** `Monkey::parse_action`: the divisor after "divisible by" and the two
      target indices after "monkey". */
  function ParseAction(test: string, onTrue: string, onFalse: string): (r: Option<(nat, nat, nat)>)
    ensures r.Some? <==> (NumberAfter(test, DivisibleBy).Some? && NumberAfter(onTrue, ToMonkey).Some? &&
      NumberAfter(onFalse, ToMonkey).Some?)
    ensures r.Some? ==> r.value.0 <= U64Max && r.value.1 <= U64Max && r.value.2 <= U64Max
  {
    var d := NumberAfter(test, DivisibleBy);
    var t := NumberAfter(onTrue, ToMonkey);
    var f := NumberAfter(onFalse, ToMonkey);
    if d.Some? && t.Some? && f.Some? then Some((d.value, t.value, f.value)) else None
  }

  const DivisibleBy := "divisible by"
  const ToMonkey := "monkey"

  /** The starting items: each comma-separated piece, trimmed, as a `u64`. */
  function ParseItems(s: string): (r: Option<seq<nat>>)
    ensures r.Some? ==> |r.value| == |Split(s, ',')|
    ensures r.Some? ==> forall i | 0 <= i < |r.value| :: r.value[i] <= U64Max
  {
    var pieces := Split(s, ',');
    var parsed := seq(|pieces|, i requires 0 <= i < |pieces| => ParseNat(Trim(pieces[i]), U64Max));
    if forall i | 0 <= i < |parsed| :: parsed[i].Some? then
      Some(seq(|parsed|, i requires 0 <= i < |parsed| && parsed[i].Some? => parsed[i].value))
    else None
  }

  /** `Monkey::new`: the first five lines of the trimmed text hold the
      starting items, the operation and the action; the monkey has inspected
      nothing yet. A text the source would panic on gives None. */
  function NewMonkey(input: string): (r: Option<Monkey>)
    ensures r.Some? ==> r.value.inspected == 0
    ensures r.Some? ==> |Lines(Trim(input))| >= 5
  {
    MonkeyOfLines(Lines(Trim(input)))
  }

  /** The monkey the first five lines describe. */
  function MonkeyOfLines(lines: seq<string>): (r: Option<Monkey>)
    ensures r.Some? ==> r.value.inspected == 0 && |lines| >= 5
  {
    if |lines| < 5 then None
    else
      var items := Field(lines[0], ":");
      var op := Field(lines[1], ":");
      if items.None? || op.None? then None
      else FromParts(ParseItems(items.value), ParseOperation(Trim(op.value)), ParseAction(lines[2], lines[3], lines[4]))
  }

  /** The monkey assembled from its parsed parts, when all of them parsed. */
  function FromParts(items: Option<seq<nat>>, op: Option<Operation>, action: Option<(nat, nat, nat)>): (r: Option<Monkey>)
    ensures r.Some? <==> items.Some? && op.Some? && action.Some?
    ensures r.Some? ==> r.value == Monkey(items.value, op.value, action.value.0, action.value.1, action.value.2, 0)
  {
    if items.Some? && op.Some? && action.Some? then
      Some(Monkey(items.value, op.value, action.value.0, action.value.1, action.value.2, 0))
    else None
  }

  /** `parse_monkey`: drops the "Monkey n:" header line. */
  function ParseMonkey(input: string): (r: Option<Monkey>)
    ensures r.Some? ==> r.value.inspected == 0
  {
    match SplitOnce(input, "\n")
    case None => None
    case Some((_, rest)) => NewMonkey(rest)
  }

  /** The starting items as the input writes them: ", "-separated. */
  function ItemPieces(items: seq<nat>): (r: seq<string>)
    ensures |r| == |items|
  {
    seq(|items|, i requires 0 <= i < |items| => " " + NatToString(items[i]))
  }

  function ItemsText(items: seq<nat>): string {
    "Starting items" + ":" + Join(ItemPieces(items), ',')
  }

  function OperationField(op: Operation): string {
    " " + OperationBody(op)
  }

  function OperationBody(op: Operation): string {
    "new " + "=" + (" " + OperationText(op))
  }

  function TestText(d: nat): string {
    "  Test: " + DivisibleBy + (" " + NatToString(d))
  }

  function TargetText(outcome: bool, t: nat): string {
    (if outcome then "    If true: throw to " else "    If false: throw to ") + ToMonkey + (" " + NatToString(t))
  }

  /** A monkey's description as the input writes it, after the header. */
  function MonkeyLines(m: Monkey): seq<string> {
    [ ItemsText(m.items), "  Operation" + ":" + OperationField(m.operation),
      TestText(m.divisibleBy), TargetText(true, m.ifTrue), TargetText(false, m.ifFalse) ]
  }

  /** The monkeys the input can describe: at least one starting item (an
      empty list does not parse), `u64` values, no inspections yet. */
  predicate Describable(m: Monkey) {
    m.items != [] && (forall i | 0 <= i < |m.items| :: m.items[i] <= U64Max) &&
    Representable(m.operation) && m.divisibleBy <= U64Max && m.ifTrue <= U64Max && m.ifFalse <= U64Max &&
    m.inspected == 0
  }

  /** Parsing the written description gives the monkey back. */
  lemma NewMonkeyOfText(m: Monkey)
    requires Describable(m)
    ensures NewMonkey(Join(MonkeyLines(m), '\n')) == Some(m)
  {
    MonkeyTextLines(m);
    MonkeyOfItsLines(m);
  }

  /** The written description trims to itself and splits into its lines. */
  lemma MonkeyTextLines(m: Monkey)
    ensures Lines(Trim(Join(MonkeyLines(m), '\n'))) == MonkeyLines(m)
  {
    MonkeyTextTrimmed(m);
    LinesOfMonkey(m);
    LinesOfJoin(MonkeyLines(m));
  }

  /** The written description has nothing to trim. */
  lemma MonkeyTextTrimmed(m: Monkey)
    ensures Trim(Join(MonkeyLines(m), '\n')) == Join(MonkeyLines(m), '\n')
  {
    var ls := MonkeyLines(m);
    var text := Join(ls, '\n');
    LinesOfMonkey(m);
    JoinedText(ls);
    TrimOfPadded("", text, "");
    assert "" + text + "" == text;
  }

  /** A monkey's written lines parse to the monkey. */
  lemma MonkeyOfItsLines(m: Monkey)
    requires Describable(m)
    ensures MonkeyOfLines(MonkeyLines(m)) == Some(m)
  {
    ItemsOfLines(m);
    OperationOfLines(m);
    ActionOfLines(m);
    MonkeyOfParsedLines(MonkeyLines(m), Join(ItemPieces(m.items), ','), m.items, OperationField(m.operation),
      m.operation, m.divisibleBy, m.ifTrue, m.ifFalse);
  }

  lemma ItemsOfLines(m: Monkey)
    requires Describable(m)
    ensures Field(MonkeyLines(m)[0], ":") == Some(Join(ItemPieces(m.items), ','))
    ensures ParseItems(Join(ItemPieces(m.items), ',')) == Some(m.items)
  {
    ItemsLine(m.items);
  }

  lemma OperationOfLines(m: Monkey)
    requires Describable(m)
    ensures Field(MonkeyLines(m)[1], ":") == Some(OperationField(m.operation))
    ensures ParseOperation(Trim(OperationField(m.operation))) == Some(m.operation)
  {
    OperationLine(m.operation);
  }

  lemma ActionOfLines(m: Monkey)
    requires Describable(m)
    ensures ParseAction(MonkeyLines(m)[2], MonkeyLines(m)[3], MonkeyLines(m)[4]) == Some((m.divisibleBy, m.ifTrue, m.ifFalse))
  {
    ActionLines(m.divisibleBy, m.ifTrue, m.ifFalse);
  }

  /** Lines whose fields parse give the monkey of those parts. */
  lemma MonkeyOfParsedLines(lines: seq<string>, itemsField: string, items: seq<nat>, opField: string, op: Operation,
                            d: nat, t: nat, f: nat)
    requires |lines| >= 5
    requires Field(lines[0], ":") == Some(itemsField) && ParseItems(itemsField) == Some(items)
    requires Field(lines[1], ":") == Some(opField) && ParseOperation(Trim(opField)) == Some(op)
    requires ParseAction(lines[2], lines[3], lines[4]) == Some((d, t, f))
    ensures MonkeyOfLines(lines) == Some(Monkey(items, op, d, t, f, 0))
  {
  }

  /** Every written line is a non-empty single line without a final '\r';
      the first starts and the last ends with a non-blank character. */
  lemma LinesOfMonkey(m: Monkey)
    ensures var ls := MonkeyLines(m);
      |ls| == 5 && ls[0][0] == 'S' && !IsWhitespace(ls[4][|ls[4]| - 1]) &&
      forall k | 0 <= k < 5 :: ls[k] != [] && '\n' !in ls[k] && ls[k][|ls[k]| - 1] != '\r'
  {
    var ls := MonkeyLines(m);
    ItemsTextLine(m.items);
    OperationTextLine(m.operation);
    TestTextLine(m.divisibleBy);
    TargetTextLine(true, m.ifTrue);
    TargetTextLine(false, m.ifFalse);
    assert SingleLine(ls[0]) && SingleLine(ls[1]) && SingleLine(ls[2]) && SingleLine(ls[3]) && SingleLine(ls[4]);
  }

  /** A non-empty text without a line break that does not end in '\r'. */
  predicate SingleLine(line: string) {
    line != [] && '\n' !in line && line[|line| - 1] != '\r'
  }

  /** The operation line is a single line. */
  lemma OperationTextLine(op: Operation)
    ensures SingleLine("  Operation" + ":" + OperationField(op))
  {
    OperationTextEnds(op);
    var text := OperationText(op);
    FrontedLine(" ", text);
    FrontedLine("new " + "=", " " + text);
    FrontedLine(" ", OperationBody(op));
    FrontedLine("  Operation" + ":", OperationField(op));
  }

  /** A single line after a front without line breaks is a single line. */
  lemma FrontedLine(front: string, line: string)
    requires '\n' !in front && SingleLine(line)
    ensures SingleLine(front + line)
  {
    assert (front + line)[|front + line| - 1] == line[|line| - 1];
  }

  /** The test line is a single line ending in a digit. */
  lemma TestTextLine(d: nat)
    ensures SingleLine(TestText(d)) && !IsWhitespace(TestText(d)[|TestText(d)| - 1])
  {
    ActionFrontsOneLine();
    NumberLine("  Test: " + DivisibleBy + " ", d);
    assert TestText(d) == "  Test: " + DivisibleBy + " " + NatToString(d);
  }

  /** A target line is a single line ending in a digit. */
  lemma TargetTextLine(outcome: bool, t: nat)
    ensures SingleLine(TargetText(outcome, t)) && !IsWhitespace(TargetText(outcome, t)[|TargetText(outcome, t)| - 1])
  {
    ActionFrontsOneLine();
    var front := if outcome then "    If true: throw to " else "    If false: throw to ";
    NumberLine(front + ToMonkey + " ", t);
    assert TargetText(outcome, t) == front + ToMonkey + " " + NatToString(t);
  }

  /** The five lines joined: the text starts and ends without whitespace. */
  lemma JoinedText(ls: seq<string>)
    requires |ls| == 5 && forall k | 0 <= k < 5 :: ls[k] != []
    requires !IsWhitespace(ls[0][0]) && !IsWhitespace(ls[4][|ls[4]| - 1])
    ensures var text := Join(ls, '\n');
      text != [] && !IsWhitespace(text[0]) && !IsWhitespace(text[|text| - 1])
  {
    assert Join(ls[4..], '\n') == ls[4];
    assert Join(ls[3..], '\n') == ls[3] + ['\n'] + ls[4];
    assert Join(ls[2..], '\n') == ls[2] + ['\n'] + Join(ls[3..], '\n');
    assert Join(ls[1..], '\n') == ls[1] + ['\n'] + Join(ls[2..], '\n');
  }

  /** The items line is one line starting with 'S'. */
  lemma ItemsTextLine(items: seq<nat>)
    ensures var line := ItemsText(items);
      line != [] && line[0] == 'S' && '\n' !in line && line[|line| - 1] != '\r'
  {
    var pieces := ItemPieces(items);
    forall k | 0 <= k < |pieces|
      ensures '\n' !in pieces[k] && '\r' !in pieces[k]
    {
      assert AllDigits(NatToString(items[k]));
    }
    JoinAvoids(pieces, ',', '\n');
    JoinAvoids(pieces, ',', '\r');
  }

  /** The items line splits off at its ':' and parses to the items. */
  lemma ItemsLine(items: seq<nat>)
    requires items != [] && forall i | 0 <= i < |items| :: items[i] <= U64Max
    ensures Field(ItemsText(items), ":") == Some(Join(ItemPieces(items), ','))
    ensures ParseItems(Join(ItemPieces(items), ',')) == Some(items)
  {
    FieldKeysFirst();
    var pieces := ItemPieces(items);
    FieldOf("Starting items", ":", Join(pieces, ','));
    forall k | 0 <= k < |pieces|
      ensures ',' !in pieces[k]
    {
      assert AllDigits(NatToString(items[k]));
    }
    SplitJoin(pieces, ',');
    ParsePieces(items);
    ParseItemsOf(Join(pieces, ','), items);
  }

  /** Items whose pieces each parse are read in order. */
  lemma ParseItemsOf(s: string, items: seq<nat>)
    requires |Split(s, ',')| == |items|
    requires forall k | 0 <= k < |items| :: ParseNat(Trim(Split(s, ',')[k]), U64Max) == Some(items[k])
    ensures ParseItems(s) == Some(items)
  {
    var pieces := Split(s, ',');
    var parsed := seq(|pieces|, i requires 0 <= i < |pieces| => ParseNat(Trim(pieces[i]), U64Max));
    assert forall i | 0 <= i < |parsed| :: parsed[i] == Some(items[i]);
    assert seq(|parsed|, i requires 0 <= i < |parsed| && parsed[i].Some? => parsed[i].value) == items;
  }

  /** Each written piece trims and parses back to its item. */
  lemma ParsePieces(items: seq<nat>)
    requires forall i | 0 <= i < |items| :: items[i] <= U64Max
    ensures forall k | 0 <= k < |items| :: ParseNat(Trim(ItemPieces(items)[k]), U64Max) == Some(items[k])
  {
    forall k | 0 <= k < |items|
      ensures ParseNat(Trim(ItemPieces(items)[k]), U64Max) == Some(items[k])
    {
      TrimmedNumber(items[k]);
    }
  }

  /** A character absent from every piece and from the separator is absent
      from the joined text. */
  lemma {:induction false} JoinAvoids(pieces: seq<string>, c: char, x: char)
    requires x != c && forall k | 0 <= k < |pieces| :: x !in pieces[k]
    ensures x !in Join(pieces, c)
  {
    if |pieces| > 1 {
      JoinAvoids(pieces[1..], c, x);
    }
  }

  /** The operation line splits off at its ':' and parses to the operation. */
  lemma OperationLine(op: Operation)
    requires Representable(op)
    ensures Field("  Operation" + ":" + OperationField(op), ":") == Some(OperationField(op))
    ensures ParseOperation(Trim(OperationField(op))) == Some(op)
  {
    FieldKeysFirst();
    FieldOf("  Operation", ":", OperationField(op));
    TrimOperationField(op);
    ParseOperationBody(op);
  }

  lemma TrimOperationField(op: Operation)
    ensures Trim(OperationField(op)) == OperationBody(op)
  {
    var body := OperationBody(op);
    OperationTextEnds(op);
    var text := OperationText(op);
    assert body == "new " + "=" + (" " + text);
    assert body[0] == 'n' && body[|body| - 1] == text[|text| - 1];
    TrimOfPadded(" ", body, "");
    assert " " + body + "" == OperationField(op);
  }

  lemma ParseOperationBody(op: Operation)
    requires Representable(op)
    ensures ParseOperation(OperationBody(op)) == Some(op)
  {
    FieldKeysFirst();
    ParseOperationOf("new ", " " + OperationText(op));
    TrimSpacedOperation(op);
    OperationOfText(op);
  }

  /** A space before the written operation trims away. */
  lemma TrimSpacedOperation(op: Operation)
    ensures Trim(" " + OperationText(op)) == OperationText(op)
  {
    var text := OperationText(op);
    OperationTextEnds(op);
    TrimOfPadded(" ", text, "");
    assert " " + text + "" == " " + text;
  }

  /** The three action lines give the divisor and the two targets. */
  lemma ActionLines(d: nat, t: nat, f: nat)
    requires d <= U64Max && t <= U64Max && f <= U64Max
    ensures ParseAction(TestText(d), TargetText(true, t), TargetText(false, f)) == Some((d, t, f))
  {
    TestKeyFirst();
    TargetKeyFirst();
    TrimmedNumber(d);
    NumberAfterOf("  Test: ", DivisibleBy, " " + NatToString(d), d);
    TrimmedNumber(t);
    NumberAfterOf("    If true: throw to ", ToMonkey, " " + NatToString(t), t);
    TrimmedNumber(f);
    NumberAfterOf("    If false: throw to ", ToMonkey, " " + NatToString(f), f);
  }

  /** The first character of "divisible by" does not occur before it. */
  lemma TestKeyFirst()
    ensures DivisibleBy[0] !in "  Test: "
  {
  }

  /** The first character of "monkey" does not occur before it. */
  lemma TargetKeyFirst()
    ensures ToMonkey[0] !in "    If true: throw to " && ToMonkey[0] !in "    If false: throw to "
  {
  }

  /** The field separators do not occur in the words before them. */
  lemma FieldKeysFirst()
    ensures ':' !in "Starting items" && ':' !in "  Operation" && '=' !in "new "
  {
  }

  /** The fixed words of an operation hold no space. */
  lemma OperatorWords()
    ensures ' ' !in "old" && ' ' !in "+" && ' ' !in "*"
  {
  }

  /** The fixed parts of the action lines hold no line break. */
  lemma ActionFrontsOneLine()
    ensures '\n' !in "  Test: " + DivisibleBy + " "
    ensures '\n' !in "    If true: throw to " + ToMonkey + " " && '\n' !in "    If false: throw to " + ToMonkey + " "
  {
  }

  /** A line ending in a written number is one line and ends in a digit. */
  lemma NumberLine(front: string, n: nat)
    requires '\n' !in front
    ensures var line := front + NatToString(n);
      '\n' !in line && line[|line| - 1] != '\r' && !IsWhitespace(line[|line| - 1])
  {
    var digits := NatToString(n);
    assert AllDigits(digits);
    assert '\n' !in digits;
  }

  /** A header line and the description after it parse as `Monkey::new`
      parses the description. */
  lemma ParseMonkeyOfText(header: string, m: Monkey)
    requires '\n' !in header && Describable(m)
    ensures ParseMonkey(header + "\n" + Join(MonkeyLines(m), '\n')) == Some(m)
  {
    SplitOnceAtChar(header, '\n', Join(MonkeyLines(m), '\n'));
    assert header + "\n" + Join(MonkeyLines(m), '\n') == header + ['\n'] + Join(MonkeyLines(m), '\n');
    NewMonkeyOfText(m);
  }

  // ---------------------------------------------------------------- throwing

  /** The worry level after inspection, before it is reduced. */
  function Raised(op: Operation, item: nat): nat {
    match op
    case Sum(v) => item + v
    case Product(v) => item * v
    case Square => item * item
  }

  /** The worry level after inspection, reduced modulo the number space. */
  function Reduced(op: Operation, item: nat, numberSpace: nat): (w: nat)
    requires numberSpace > 0
    ensures w < numberSpace
  {
    Raised(op, item) % numberSpace
  }

  /** The monkey an item of worry `worry` is thrown to. */
  function TargetOf(m: Monkey, worry: nat): nat
    requires m.divisibleBy > 0
  {
    if worry % m.divisibleBy == 0 then m.ifTrue else m.ifFalse
  }

  /** A non-zero modulus and divisor, and both targets among the monkeys:
      enough for any items to be thrown. */
  predicate CanThrow(monkeys: seq<Monkey>, m: Monkey, numberSpace: nat) {
    numberSpace > 0 && m.divisibleBy > 0 && m.ifTrue < |monkeys| && m.ifFalse < |monkeys|
  }

  /** No inspection of the monkey's items overflows a `u64`. */
  predicate NoOverflow(m: Monkey) {
    forall i | 0 <= i < |m.items| :: Raised(m.operation, m.items[i]) <= U64Max
  }

  /** What throwing `items` needs in order to be defined: no items, or a
      non-zero modulus and divisor and, for each item, the one target it is
      thrown to among the monkeys. A target that no item reaches is never
      indexed. */
  predicate CanReach(monkeys: seq<Monkey>, m: Monkey, items: seq<nat>, numberSpace: nat) {
    items == [] ||
    (numberSpace > 0 && m.divisibleBy > 0 &&
     forall i | 0 <= i < |items| :: TargetOf(m, Reduced(m.operation, items[i], numberSpace)) < |monkeys|)
  }

  /** What the turn of the monkey at `index` needs in order to be defined:
      a monkey holding no items reaches none of the divisions and none of
      the targets. */
  predicate CanTurn(monkeys: seq<Monkey>, index: nat, numberSpace: nat)
    requires index < |monkeys|
  {
    CanReach(monkeys, monkeys[index], monkeys[index].items, numberSpace)
  }

  /** `monkey_run` on the monkey at `index` does not panic: it holds no
      items, or its modulus and divisor are non-zero, every item's target
      exists, no inspection overflows a `u64`, and neither does its
      inspection count. */
  predicate TurnRuns(monkeys: seq<Monkey>, index: nat, numberSpace: nat)
    requires index < |monkeys|
  {
    var m := monkeys[index];
    m.items == [] ||
    (CanReach(monkeys, m, m.items, numberSpace) && NoOverflow(m) && m.inspected + |m.items| <= U64Max)
  }

  /** The reduced worries of the `items` that `m` throws to monkey `t`, in
      the order of the items. */
  function SentTo(m: Monkey, items: seq<nat>, numberSpace: nat, t: nat): (r: seq<nat>)
    requires items == [] || (numberSpace > 0 && m.divisibleBy > 0)
    ensures |r| <= |items|
  {
    if items == [] then []
    else
      var w := Reduced(m.operation, items[|items| - 1], numberSpace);
      SentTo(m, items[..|items| - 1], numberSpace, t) + (if TargetOf(m, w) == t then [w] else [])
  }

  /** The state after `m` has thrown `items`, one after the other, each
      pushed onto its target's list. */
  function Thrown(monkeys: seq<Monkey>, m: Monkey, items: seq<nat>, numberSpace: nat): (r: seq<Monkey>)
    requires CanReach(monkeys, m, items, numberSpace)
    ensures |r| == |monkeys|
  {
    if items == [] then monkeys
    else
      var before := Thrown(monkeys, m, items[..|items| - 1], numberSpace);
      var w := Reduced(m.operation, items[|items| - 1], numberSpace);
      var t := TargetOf(m, w);
      before[t := before[t].(items := before[t].items + [w])]
  }

  /** `monkey_run`'s effect: the monkey at `index` throws all its items,
      then holds none and has inspected them all. */
  function Turn(monkeys: seq<Monkey>, index: nat, numberSpace: nat): (r: seq<Monkey>)
    requires index < |monkeys| && CanTurn(monkeys, index, numberSpace)
    ensures |r| == |monkeys|
  {
    var m := monkeys[index];
    var after := Thrown(monkeys, m, m.items, numberSpace);
    after[index := after[index].(items := [], inspected := after[index].inspected + |m.items|)]
  }

  /** Throwing appends to each monkey exactly the items sent to it, in
      order, and changes nothing else. */
  lemma {:induction false} ThrownAppends(monkeys: seq<Monkey>, m: Monkey, items: seq<nat>, numberSpace: nat, t: nat)
    requires CanReach(monkeys, m, items, numberSpace) && t < |monkeys|
    ensures Thrown(monkeys, m, items, numberSpace)[t] ==
      monkeys[t].(items := monkeys[t].items + SentTo(m, items, numberSpace, t))
  {
    if items != [] {
      ThrownAppends(monkeys, m, items[..|items| - 1], numberSpace, t);
    }
  }

  /** `monkey_run` on the monkey at `index`: every item goes, in order, to
      the end of its target's list; the monkey ends with no items and
      `inspected` grown by its former item count. */
  lemma TurnEffect(monkeys: seq<Monkey>, index: nat, numberSpace: nat, t: nat)
    requires index < |monkeys| && CanTurn(monkeys, index, numberSpace) && t < |monkeys|
    ensures var m := monkeys[index];
      var r := Turn(monkeys, index, numberSpace);
      (t == index ==> r[t] == m.(items := [], inspected := m.inspected + |m.items|)) &&
      (t != index ==> r[t] == monkeys[t].(items := monkeys[t].items + SentTo(m, m.items, numberSpace, t)))
  {
    ThrownAppends(monkeys, monkeys[index], monkeys[index].items, numberSpace, t);
  }

  /** A monkey is sent an item only if it is one of the two targets, and
      the true target receives exactly the items whose reduced worry is
      divisible. */
  lemma {:induction false} SentToTargets(m: Monkey, items: seq<nat>, numberSpace: nat, t: nat)
    requires items == [] || (numberSpace > 0 && m.divisibleBy > 0)
    ensures t != m.ifTrue && t != m.ifFalse ==> SentTo(m, items, numberSpace, t) == []
    ensures forall j | 0 <= j < |SentTo(m, items, numberSpace, t)| ::
      var w := SentTo(m, items, numberSpace, t)[j];
      (t == m.ifTrue && t != m.ifFalse ==> w % m.divisibleBy == 0) &&
      (t == m.ifFalse && t != m.ifTrue ==> w % m.divisibleBy != 0)
  {
    if items != [] {
      SentToTargets(m, items[..|items| - 1], numberSpace, t);
    }
  }

  /** Every item is sent to exactly one monkey. */
  lemma {:induction false} SentSplits(m: Monkey, items: seq<nat>, numberSpace: nat)
    requires numberSpace > 0 && m.divisibleBy > 0 && m.ifTrue != m.ifFalse
    ensures |SentTo(m, items, numberSpace, m.ifTrue)| + |SentTo(m, items, numberSpace, m.ifFalse)| == |items|
  {
    if items != [] {
      SentSplits(m, items[..|items| - 1], numberSpace);
    }
  }

  // ------------------------------------------------------------ conservation

  function TotalItems(monkeys: seq<Monkey>): nat {
    if monkeys == [] then 0 else TotalItems(monkeys[..|monkeys| - 1]) + |monkeys[|monkeys| - 1].items|
  }

  lemma {:induction false} TotalUpdate(monkeys: seq<Monkey>, i: nat, x: Monkey)
    requires i < |monkeys|
    ensures TotalItems(monkeys[i := x]) == TotalItems(monkeys) - |monkeys[i].items| + |x.items|
  {
    var n := |monkeys|;
    var init := monkeys[..n - 1];
    if i < n - 1 {
      assert monkeys[i := x][..n - 1] == init[i := x];
      TotalUpdate(init, i, x);
    } else {
      assert monkeys[i := x][..n - 1] == init;
    }
  }

  lemma {:induction false} ItemsWithinTotal(monkeys: seq<Monkey>, i: nat)
    requires i < |monkeys|
    ensures |monkeys[i].items| <= TotalItems(monkeys)
  {
    var n := |monkeys|;
    if i < n - 1 {
      ItemsWithinTotal(monkeys[..n - 1], i);
    }
  }

  lemma {:induction false} ThrownTotal(monkeys: seq<Monkey>, m: Monkey, items: seq<nat>, numberSpace: nat)
    requires CanReach(monkeys, m, items, numberSpace)
    ensures TotalItems(Thrown(monkeys, m, items, numberSpace)) == TotalItems(monkeys) + |items|
  {
    if items != [] {
      var before := Thrown(monkeys, m, items[..|items| - 1], numberSpace);
      ThrownTotal(monkeys, m, items[..|items| - 1], numberSpace);
      var w := Reduced(m.operation, items[|items| - 1], numberSpace);
      var t := TargetOf(m, w);
      TotalUpdate(before, t, before[t].(items := before[t].items + [w]));
    }
  }

  /** A turn loses exactly the items the monkey throws to itself (they land
      on its own list, which is then cleared): when neither target is the
      monkey itself, the number of items is preserved. */
  lemma TurnTotal(monkeys: seq<Monkey>, index: nat, numberSpace: nat)
    requires index < |monkeys| && CanTurn(monkeys, index, numberSpace)
    ensures var m := monkeys[index];
      TotalItems(Turn(monkeys, index, numberSpace)) + |SentTo(m, m.items, numberSpace, index)| == TotalItems(monkeys)
    ensures monkeys[index].ifTrue != index && monkeys[index].ifFalse != index ==>
      TotalItems(Turn(monkeys, index, numberSpace)) == TotalItems(monkeys)
  {
    var m := monkeys[index];
    assert TotalItems(Turn(monkeys, index, numberSpace)) + |SentTo(m, m.items, numberSpace, index)| == TotalItems(monkeys) by {
      var after := Thrown(monkeys, m, m.items, numberSpace);
      ThrownTotal(monkeys, m, m.items, numberSpace);
      ThrownAppends(monkeys, m, m.items, numberSpace, index);
      var cleared := after[index].(items := [], inspected := after[index].inspected + |m.items|);
      assert Turn(monkeys, index, numberSpace) == after[index := cleared];
      TotalUpdate(after, index, cleared);
    }
    if m.ifTrue != index && m.ifFalse != index {
      SentToTargets(m, m.items, numberSpace, index);
    }
  }

  /** `monkey_run`: the monkey at `index` throws every item, then its list
      is emptied and its inspection count grows by the number of items.
      `ok` is false exactly where the code panics (a zero modulus or
      divisor, an item thrown to a monkey that does not exist, a `u64`
      overflow); the monkeys are then left as they were. */
  method MonkeyRun(monkeys: array<Monkey>, index: nat, numberSpace: nat) returns (ok: bool)
    requires index < monkeys.Length
    modifies monkeys
    ensures ok == TurnRuns(old(monkeys[..]), index, numberSpace)
    ensures ok ==> monkeys[..] == Turn(old(monkeys[..]), index, numberSpace)
    ensures !ok ==> monkeys[..] == old(monkeys[..])
  {
    ok := TurnRuns(monkeys[..], index, numberSpace);
    if !ok {
      return;
    }
    ghost var start := monkeys[..];
    var m := monkeys[index];
    var items := m.items;
    for i := 0 to |items|
      invariant monkeys[..] == Thrown(start, m, items[..i], numberSpace)
    {
      var item := items[i];
      var newItem := match m.operation
        case Sum(value) => item + value
        case Product(value) => item * value
        case Square => item * item;
      newItem := newItem % numberSpace;
      var throwIndex := if newItem % m.divisibleBy == 0 then m.ifTrue else m.ifFalse;
      monkeys[throwIndex] := monkeys[throwIndex].(items := monkeys[throwIndex].items + [newItem]);
      assert items[..i + 1][..i] == items[..i];
    }
    assert items[..|items|] == items;
    monkeys[index] := monkeys[index].(items := [], inspected := monkeys[index].inspected + |items|);
  }

  /** A target that no item reaches may lie outside the monkeys: a lone
      monkey whose only item goes to itself runs its turn although its
      false target, 5, does not exist. */
  lemma UnusedTargetIgnored()
    ensures var monkeys := [Monkey([2], Sum(0), 2, 0, 5, 0)];
      TurnRuns(monkeys, 0, 10) && Turn(monkeys, 0, 10) == [Monkey([], Sum(0), 2, 0, 5, 1)]
  {
    var monkeys := [Monkey([2], Sum(0), 2, 0, 5, 0)];
    var m := monkeys[0];
    assert Reduced(m.operation, 2, 10) == 2 && TargetOf(m, 2) == 0;
    assert [2][..0] == [];
    assert Thrown(monkeys, m, [2], 10) == [m.(items := [2, 2])] by {
      assert Thrown(monkeys, m, [], 10) == monkeys;
      assert [2][|[2]| - 1] == 2;
      assert [2] + [2] == [2, 2];
    }
  }

  // ---------------------------------------------------------------- a round

  /** A state in which no turn can fail: each monkey's divisor and targets
      are valid, its items can be inspected without overflow, and so can
      any item reduced below the number space. */
  predicate Safe(monkeys: seq<Monkey>, numberSpace: nat) {
    numberSpace > 0 &&
    forall k | 0 <= k < |monkeys| ::
      CanThrow(monkeys, monkeys[k], numberSpace) && NoOverflow(monkeys[k]) &&
      Raised(monkeys[k].operation, numberSpace - 1) <= U64Max
  }

  /** Every inspection count has room for every item in play. */
  predicate RoomToInspect(monkeys: seq<Monkey>) {
    forall k | 0 <= k < |monkeys| :: monkeys[k].inspected + TotalItems(monkeys) <= U64Max
  }

  lemma RaisedMonotone(op: Operation, a: nat, b: nat)
    requires a <= b
    ensures Raised(op, a) <= Raised(op, b)
  {
    match op
    case Sum(_) =>
    case Product(v) => MulMonotone(a, b, v, v);
    case Square => MulMonotone(a, b, a, b);
  }

  lemma MulMonotone(a: nat, b: nat, c: nat, d: nat)
    requires a <= b && c <= d
    ensures a * c <= b * d
  {
    assert b * d - a * c == (b - a) * d + a * (d - c);
    MulNonNegative(b - a, d);
    MulNonNegative(a, d - c);
  }

  /** A turn keeps the state safe: thrown items are below the number space. */
  lemma TurnKeepsSafe(monkeys: seq<Monkey>, index: nat, numberSpace: nat)
    requires index < |monkeys| && Safe(monkeys, numberSpace)
    ensures Safe(Turn(monkeys, index, numberSpace), numberSpace)
  {
    var m := monkeys[index];
    var r := Turn(monkeys, index, numberSpace);
    forall k | 0 <= k < |r|
      ensures CanThrow(r, r[k], numberSpace) && NoOverflow(r[k]) &&
        Raised(r[k].operation, numberSpace - 1) <= U64Max
    {
      TurnEffect(monkeys, index, numberSpace, k);
      if k != index {
        var sent := SentTo(m, m.items, numberSpace, k);
        SentBelow(m, m.items, numberSpace, k);
        forall i | 0 <= i < |r[k].items|
          ensures Raised(r[k].operation, r[k].items[i]) <= U64Max
        {
          if i >= |monkeys[k].items| {
            RaisedMonotone(r[k].operation, sent[i - |monkeys[k].items|], numberSpace - 1);
          }
        }
      }
    }
  }

  lemma {:induction false} SentBelow(m: Monkey, items: seq<nat>, numberSpace: nat, t: nat)
    requires numberSpace > 0 && m.divisibleBy > 0
    ensures forall j | 0 <= j < |SentTo(m, items, numberSpace, t)| :: SentTo(m, items, numberSpace, t)[j] < numberSpace
  {
    if items != [] {
      SentBelow(m, items[..|items| - 1], numberSpace, t);
    }
  }

  /** The state after the first `k` monkeys of a round have had their turn,
      or None when one of those turns panics. */
  function TurnsUpTo(monkeys: seq<Monkey>, numberSpace: nat, k: nat): (r: Option<seq<Monkey>>)
    requires k <= |monkeys|
    ensures r.Some? ==> |r.value| == |monkeys|
  {
    if k == 0 then Some(monkeys)
    else
      match TurnsUpTo(monkeys, numberSpace, k - 1)
      case None => None
      case Some(before) =>
        if TurnRuns(before, k - 1, numberSpace) then Some(Turn(before, k - 1, numberSpace)) else None
  }

  /** Once a turn has panicked, the round does not go on. */
  lemma {:induction false} TurnsUpToFailed(monkeys: seq<Monkey>, numberSpace: nat, j: nat, k: nat)
    requires j <= k <= |monkeys| && TurnsUpTo(monkeys, numberSpace, j).None?
    ensures TurnsUpTo(monkeys, numberSpace, k).None?
  {
    if j < k {
      TurnsUpToFailed(monkeys, numberSpace, j, k - 1);
    }
  }

  /** No monkey throws to itself. */
  predicate NoSelfThrow(monkeys: seq<Monkey>) {
    forall k | 0 <= k < |monkeys| :: monkeys[k].ifTrue != k && monkeys[k].ifFalse != k
  }

  /** Two states whose monkeys have the same targets. */
  predicate SameTargets(a: seq<Monkey>, b: seq<Monkey>) {
    |a| == |b| && forall j | 0 <= j < |a| :: a[j].ifTrue == b[j].ifTrue && a[j].ifFalse == b[j].ifFalse
  }

  /** A turn keeps every target and changes only its own monkey's count. */
  lemma TurnKeepsTargets(monkeys: seq<Monkey>, index: nat, numberSpace: nat)
    requires index < |monkeys| && CanTurn(monkeys, index, numberSpace)
    ensures SameTargets(Turn(monkeys, index, numberSpace), monkeys)
    ensures forall j | 0 <= j < |monkeys| && j != index :: Turn(monkeys, index, numberSpace)[j].inspected == monkeys[j].inspected
  {
    forall j | 0 <= j < |monkeys|
      ensures Turn(monkeys, index, numberSpace)[j].ifTrue == monkeys[j].ifTrue
      ensures Turn(monkeys, index, numberSpace)[j].ifFalse == monkeys[j].ifFalse
      ensures j != index ==> Turn(monkeys, index, numberSpace)[j].inspected == monkeys[j].inspected
    {
      TurnEffect(monkeys, index, numberSpace, j);
    }
  }

  /** Turns that run never add items, and keep every item when no monkey
      throws to itself. */
  lemma {:induction false} TurnsUpToTotal(monkeys: seq<Monkey>, numberSpace: nat, k: nat)
    requires k <= |monkeys| && TurnsUpTo(monkeys, numberSpace, k).Some?
    ensures TotalItems(TurnsUpTo(monkeys, numberSpace, k).value) <= TotalItems(monkeys)
    ensures NoSelfThrow(monkeys) ==> TotalItems(TurnsUpTo(monkeys, numberSpace, k).value) == TotalItems(monkeys)
  {
    if k > 0 {
      var before := TurnsUpTo(monkeys, numberSpace, k - 1).value;
      TurnsUpToTotal(monkeys, numberSpace, k - 1);
      TurnsUpToTargets(monkeys, numberSpace, k - 1);
      TurnTotalBelow(before, monkeys, k - 1, numberSpace);
    }
  }

  /** One turn, in a state with the targets of `monkeys`, adds no item, and
      loses none when no monkey of `monkeys` throws to itself. */
  lemma TurnTotalBelow(before: seq<Monkey>, monkeys: seq<Monkey>, index: nat, numberSpace: nat)
    requires index < |before| && CanTurn(before, index, numberSpace) && SameTargets(before, monkeys)
    ensures TotalItems(Turn(before, index, numberSpace)) <= TotalItems(before)
    ensures NoSelfThrow(monkeys) ==> TotalItems(Turn(before, index, numberSpace)) == TotalItems(before)
  {
    TurnTotal(before, index, numberSpace);
    if NoSelfThrow(monkeys) {
      assert before[index].ifTrue == monkeys[index].ifTrue && before[index].ifFalse == monkeys[index].ifFalse;
    }
  }

  /** Turns that run leave the targets of every monkey as they were, and
      the counts of the monkeys yet to move. */
  lemma {:induction false} TurnsUpToTargets(monkeys: seq<Monkey>, numberSpace: nat, k: nat)
    requires k <= |monkeys| && TurnsUpTo(monkeys, numberSpace, k).Some?
    ensures SameTargets(TurnsUpTo(monkeys, numberSpace, k).value, monkeys)
    ensures forall j | k <= j < |monkeys| :: TurnsUpTo(monkeys, numberSpace, k).value[j].inspected == monkeys[j].inspected
  {
    if k > 0 {
      var before := TurnsUpTo(monkeys, numberSpace, k - 1).value;
      TurnsUpToTargets(monkeys, numberSpace, k - 1);
      TurnKeepsTargets(before, k - 1, numberSpace);
    }
  }

  /** From a safe state whose inspection counts have room for every item in
      play, no turn of the round panics, and the state stays safe. */
  lemma {:induction false} SafeTurnsRun(monkeys: seq<Monkey>, numberSpace: nat, k: nat)
    requires Safe(monkeys, numberSpace) && RoomToInspect(monkeys) && k <= |monkeys|
    ensures TurnsUpTo(monkeys, numberSpace, k).Some?
    ensures Safe(TurnsUpTo(monkeys, numberSpace, k).value, numberSpace)
  {
    if k > 0 {
      SafeTurnsRun(monkeys, numberSpace, k - 1);
      var before := TurnsUpTo(monkeys, numberSpace, k - 1).value;
      TurnsUpToTotal(monkeys, numberSpace, k - 1);
      TurnsUpToTargets(monkeys, numberSpace, k - 1);
      ItemsWithinTotal(before, k - 1);
      assert TurnRuns(before, k - 1, numberSpace);
      TurnKeepsSafe(before, k - 1, numberSpace);
    }
  }

  /** One round of `run`: every monkey, in index order, has its turn. `ok`
      is false exactly when one of the turns panics; from a safe state with
      room in the inspection counts, none does. */
  method Round(monkeys: array<Monkey>, numberSpace: nat) returns (ok: bool)
    modifies monkeys
    ensures ok <==> TurnsUpTo(old(monkeys[..]), numberSpace, monkeys.Length).Some?
    ensures ok ==> monkeys[..] == TurnsUpTo(old(monkeys[..]), numberSpace, monkeys.Length).value
    ensures Safe(old(monkeys[..]), numberSpace) && RoomToInspect(old(monkeys[..])) ==> ok
  {
    ghost var start := monkeys[..];
    if Safe(start, numberSpace) && RoomToInspect(start) {
      SafeTurnsRun(start, numberSpace, monkeys.Length);
    }
    for i := 0 to monkeys.Length
      invariant TurnsUpTo(start, numberSpace, i) == Some(monkeys[..])
    {
      ok := MonkeyRun(monkeys, i, numberSpace);
      if !ok {
        TurnsUpToFailed(start, numberSpace, i + 1, monkeys.Length);
        return;
      }
    }
    ok := true;
  }

  // ------------------------------------------------------------ number space

  /** `run`'s number space: the product of all divisors. */
  function NumberSpace(monkeys: seq<Monkey>): nat {
    if monkeys == [] then 1 else NumberSpace(monkeys[..|monkeys| - 1]) * monkeys[|monkeys| - 1].divisibleBy
  }

  /** Every divisor divides the number space. */
  lemma {:induction false} DivisorDividesNumberSpace(monkeys: seq<Monkey>, k: nat)
    requires k < |monkeys|
    ensures exists q: nat :: NumberSpace(monkeys) == q * monkeys[k].divisibleBy
  {
    var n := |monkeys|;
    var init := monkeys[..n - 1];
    if k == n - 1 {
      assert NumberSpace(monkeys) == NumberSpace(init) * monkeys[k].divisibleBy;
    } else {
      DivisorDividesNumberSpace(init, k);
      var q: nat :| NumberSpace(init) == q * monkeys[k].divisibleBy;
      assert NumberSpace(monkeys) == (q * monkeys[n - 1].divisibleBy) * monkeys[k].divisibleBy;
    }
  }

  /** Reducing modulo a multiple of the divisor does not change the
      divisibility test, so the number space keeps every throw as it would
      be without reduction. */
  lemma ReductionKeepsTarget(m: Monkey, worry: nat, q: nat)
    requires m.divisibleBy > 0 && q > 0
    ensures TargetOf(m, worry % (q * m.divisibleBy)) == TargetOf(m, worry)
  {
    var d := m.divisibleBy;
    var n := q * d;
    MulNonNegative(q - 1, d);
    assert n >= d;
    var a := worry / n;
    var r := worry % n;
    assert worry == (a * q) * d + r by {
      assert worry == a * n + r;
    }
    DivModUnique(worry, d, a * q + r / d, r % d);
  }

  /** The turn the source's test runs: monkey 1 throws 1 and 2, multiplied
      by 9, to monkeys 0 and 2. */
  lemma ExampleTurn()
    ensures var monkeys := [
        Monkey([5, 2], Product(3), 2, 1, 2, 0),
        Monkey([1, 2], Product(9), 2, 2, 0, 0),
        Monkey([], Square, 10, 0, 1, 0)];
      Turn(monkeys, 1, 1000000) == [
        Monkey([5, 2, 9], Product(3), 2, 1, 2, 0),
        Monkey([], Product(9), 2, 2, 0, 2),
        Monkey([18], Square, 10, 0, 1, 0)]
  {
    var monkeys := [
      Monkey([5, 2], Product(3), 2, 1, 2, 0),
      Monkey([1, 2], Product(9), 2, 2, 0, 0),
      Monkey([], Square, 10, 0, 1, 0)];
    var m := monkeys[1];
    assert Reduced(m.operation, 1, 1000000) == 9 && TargetOf(m, 9) == 0;
    assert Reduced(m.operation, 2, 1000000) == 18 && TargetOf(m, 18) == 2;
    assert [1][..0] == [] && [1, 2][..1] == [1];
    var first := Thrown(monkeys, m, [1], 1000000);
    assert first == monkeys[0 := monkeys[0].(items := [5, 2, 9])] by {
      assert Thrown(monkeys, m, [], 1000000) == monkeys;
      assert [5, 2] + [9] == [5, 2, 9];
    }
    assert Thrown(monkeys, m, [1, 2], 1000000) == first[2 := first[2].(items := [18])] by {
      assert [1, 2][1] == 2;
      assert [] + [18] == [18];
    }
  }
}
