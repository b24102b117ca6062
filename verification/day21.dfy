/** Day 21 (Monkey Math): every monkey either yells a number or combines the
    numbers of two other monkeys. The description becomes an expression tree
    in which the human ("humn") is the unknown; constant subtrees are folded
    and the equation at the root is unwound until the human stands alone. */
module Day21MonkeyMath {
  import opened Text

  /** Range of Rust's `isize` on a 64-bit target. */
  const IsizeMin: int := -0x8000_0000_0000_0000
  const IsizeMax: int := 0x7fff_ffff_ffff_ffff

  // -------------------------------------------------------------- operations

  datatype Operation = Add | Sub | Mul | Div

  function Symbol(op: Operation): (s: string)
    ensures |s| == 1 && !IsWhitespace(s[0])
  {
    match op
    case Add => "+"
    case Sub => "-"
    case Mul => "*"
    case Div => "/"
  }

  /** `Operation::parse`: one of the four symbols, nothing else. */
  function ParseOperation(s: string): (r: Option<Operation>)
    ensures r.Some? <==> s == "+" || s == "-" || s == "*" || s == "/"
    ensures r.Some? ==> Symbol(r.value) == s
  {
    if s == "+" then Some(Add)
    else if s == "-" then Some(Sub)
    else if s == "*" then Some(Mul)
    else if s == "/" then Some(Div)
    else None
  }

  lemma ParseOperationOfSymbol(op: Operation)
    ensures ParseOperation(Symbol(op)) == Some(op)
  {
  }

  /** Division by zero panics in the source; every other application is
      defined. */
  predicate Defined(op: Operation, b: int) {
    op != Div || b != 0
  }

  /** `Operation::apply`, with `/` truncating toward zero as Rust's does. */
  function Apply(op: Operation, a: int, b: int): int
    requires Defined(op, b)
  {
    match op
    case Add => a + b
    case Sub => a - b
    case Mul => a * b
    case Div => TruncDiv(a, b)
  }

  /** `Operation::inverse`: swaps `+` with `-` and `*` with `/`. */
  function Inverse(op: Operation): (r: Operation)
    ensures r != op
    ensures (op == Add || op == Sub) <==> (r == Add || r == Sub)
  {
    match op
    case Add => Sub
    case Sub => Add
    case Mul => Div
    case Div => Mul
  }

  lemma InverseInverse(op: Operation)
    ensures Inverse(Inverse(op)) == op
  {
  }

  /** The inverse undoes `+`, `-` and `*` by a non-zero number. */
  lemma ApplyInverse(op: Operation, a: int, b: int)
    requires op != Div && (op == Mul ==> b != 0)
    ensures Defined(Inverse(op), b)
    ensures Apply(Inverse(op), Apply(op, a, b), b) == a
  {
    if op == Mul {
      MulThenTruncDiv(a, b);
    }
  }

  lemma MulThenTruncDiv(a: int, b: int)
    requires b != 0
    ensures TruncDiv(a * b, b) == a
  {
    var n, d := Abs(a), Abs(b);
    AbsMul(a, b);
    DivModUnique(n * d, d, n, 0);
    MulSign(a, b);
  }

  /** The magnitude of a product is the product of the magnitudes. */
  lemma AbsMul(a: int, b: int)
    ensures Abs(a * b) == Abs(a) * Abs(b)
  {
    if a < 0 && b < 0 {
      assert a * b == (-a) * (-b);
    } else if a < 0 {
      assert -(a * b) == (-a) * b;
    } else if b < 0 {
      assert -(a * b) == a * (-b);
    }
  }

  /** A product with a non-zero factor `b` is negative exactly when the
      signs differ, and zero only when `a` is. */
  lemma MulSign(a: int, b: int)
    requires b != 0
    ensures a * b < 0 <==> (a < 0) != (b < 0) && a != 0
    ensures a * b == 0 <==> a == 0
  {
    if a > 0 && b > 0 {
      MulPositive(a, b);
    } else if a < 0 && b < 0 {
      MulPositive(-a, -b);
      assert a * b == (-a) * (-b);
    } else if a < 0 {
      MulPositive(-a, b);
      assert a * b == -((-a) * b);
    } else if a > 0 {
      MulPositive(a, -b);
      assert a * b == -(a * (-b));
    }
  }

  lemma MulPositive(x: int, y: int)
    requires x > 0 && y > 0
    ensures x * y > 0
  {
    MulNonNegative(x - 1, y);
    assert x * y == (x - 1) * y + y;
  }

  lemma TruncDivByMinusOne(k: int)
    ensures TruncDiv(k, -1) == -k
  {
    assert Abs(k) / Abs(-1) == Abs(k);
  }

  // ----------------------------------------------------------------- monkeys

  datatype Monkey =
    | Yelling(name: string, number: int)
    | Math(name: string, op: Operation, left: string, right: string)

  /** `Monkey::from_str`: the name before the first ':', then the job
      written after it. A text the source would panic on gives None. */
  function ParseMonkey(line: string): (r: Option<Monkey>)
    ensures SplitOnce(line, ":").None? ==> r.None?
    ensures r.Some? ==> SplitOnce(line, ":").Some? && r.value.name == SplitOnce(line, ":").value.0
  {
    match SplitOnce(line, ":")
    case None => None
    case Some((name, after)) => ParseJob(name, Trim(after))
  }

  /** The trimmed text after the ':' is either an `isize` (a yelling
      monkey) or a first operand name of four bytes, an operation symbol
      and the second operand (a math monkey). `split_at(4)` splits at a
      byte offset, and panics when it lies inside a character. */
  function ParseJob(name: string, rest: string): (r: Option<Monkey>)
    ensures r.Some? ==> r.value.name == name
    ensures r.Some? ==> (r.value.Yelling? <==> ParseInt(rest, IsizeMin, IsizeMax).Some?)
    ensures r.Some? && r.value.Yelling? ==> IsizeMin <= r.value.number <= IsizeMax
    ensures r.Some? && r.value.Math? ==>
      Utf8Length(r.value.left) == 4 && |r.value.left| <= |rest| && rest[..|r.value.left|] == r.value.left
    ensures ParseInt(rest, IsizeMin, IsizeMax).None? && CharsInBytes(rest, 4).None? ==> r.None?
  {
    match ParseInt(rest, IsizeMin, IsizeMax)
    case Some(n) => Some(Yelling(name, n))
    case None =>
      match CharsInBytes(rest, 4)
      case None => None
      case Some(k) =>
        match SplitOnce(Trim(rest[k..]), " ")
        case None => None
        case Some((symbol, second)) =>
          match ParseOperation(symbol)
          case None => None
          case Some(op) => Some(Math(name, op, rest[..k], second))
  }

  /** A two-byte character and two more already take four bytes, which
      leaves the operand's last character where the operation symbol should
      be: the code's `Operation::parse(..).unwrap()` panics. */
  lemma SplitInsideOperand(name: string, c: char, right: string)
    requires 0x80 <= c as int < 0x800 && right != [] && NoWhitespace(right)
    ensures ParseJob(name, [c] + "bcd + " + right).None?
  {
    var rest := [c] + "bcd + " + right;
    StartsWithNonDigit(c, right);
    FourBytesInside(c, right);
    SymbolInsideOperand(c, right);
    assert ParseOperation("d").None?;
    UnknownSymbol(name, rest, 3, "d", "+ " + right);
  }

  lemma StartsWithNonDigit(c: char, right: string)
    requires 0x80 <= c as int
    ensures ParseInt([c] + "bcd + " + right, IsizeMin, IsizeMax).None?
  {
    var rest := [c] + "bcd + " + right;
    assert !IsDigit(rest[0]) && rest[0] != '+' && rest[0] != '-';
  }

  /** A two-byte character and two ASCII ones take the first four bytes. */
  lemma FourBytesInside(c: char, right: string)
    requires 0x80 <= c as int < 0x800
    ensures CharsInBytes([c] + "bcd + " + right, 4) == Some(3)
  {
    assert [c] + "bcd + " + right == [c, 'b', 'c'] + ("d + " + right);
    assert Utf8Length([c, 'b', 'c']) == Utf8Width(c) + Utf8Length(['b', 'c']);
    CharsInBytesOfPrefix([c, 'b', 'c'], "d + " + right);
  }

  lemma SymbolInsideOperand(c: char, right: string)
    requires right != [] && NoWhitespace(right)
    ensures SplitOnce(Trim(([c] + "bcd + " + right)[3..]), " ") == Some(("d", "+ " + right))
  {
    var tail := "+ " + right;
    assert ([c] + "bcd + " + right)[3..] == "d" + " " + tail;
    assert tail[|tail| - 1] == right[|right| - 1];
    SplitTrimmed("d", tail);
  }

  /** A job whose word after the first four bytes is no operation is refused. */
  lemma UnknownSymbol(name: string, rest: string, k: nat, symbol: string, second: string)
    requires k <= |rest| && ParseInt(rest, IsizeMin, IsizeMax).None? && CharsInBytes(rest, 4) == Some(k)
    requires SplitOnce(Trim(rest[k..]), " ") == Some((symbol, second)) && ParseOperation(symbol).None?
    ensures ParseJob(name, rest).None?
  {
  }

  /** A word, a space and a text ending in a non-blank trim to themselves
      and split at that space. */
  lemma SplitTrimmed(a: string, b: string)
    requires a != [] && NoWhitespace(a) && b != [] && !IsWhitespace(b[|b| - 1])
    ensures SplitOnce(Trim(a + " " + b), " ") == Some((a, b))
  {
    var s := a + " " + b;
    assert s[0] == a[0] && s[|s| - 1] == b[|b| - 1];
    TrimOfPadded("", s, "");
    assert "" + s + "" == s;
    assert ' ' !in a by {
      forall i | 0 <= i < |a| ensures a[i] != ' ' {
        assert !IsWhitespace(a[i]);
      }
    }
    assert s == a + [' '] + b;
    SplitOnceAtChar(a, ' ', b);
  }

  predicate NoWhitespace(s: string) {
    forall i | 0 <= i < |s| :: !IsWhitespace(s[i])
  }

  /** A monkey as the puzzle input writes it. */
  function MonkeyText(m: Monkey): string {
    match m
    case Yelling(name, n) => name + ": " + IntToString(n)
    case Math(name, op, l, r) => name + ": " + l + " " + Symbol(op) + " " + r
  }

  /** The monkeys the input format can describe. */
  predicate WellFormed(m: Monkey) {
    ':' !in m.name &&
    match m
    case Yelling(_, n) => IsizeMin <= n <= IsizeMax
    case Math(_, _, l, r) => Utf8Length(l) == 4 && NoWhitespace(l) && r != [] && NoWhitespace(r)
  }

  /** Parsing the written form of a monkey gives the monkey back. */
  lemma ParseMonkeyOfText(m: Monkey)
    requires WellFormed(m)
    ensures ParseMonkey(MonkeyText(m)) == Some(m)
  {
    if m.Yelling? {
      ParseYellingOfText(m);
    } else {
      ParseMathOfText(m);
    }
  }

  lemma ParseYellingOfText(m: Monkey)
    requires WellFormed(m) && m.Yelling?
    ensures ParseMonkey(MonkeyText(m)) == Some(m)
  {
    var body := IntToString(m.number);
    assert MonkeyText(m) == m.name + [':'] + (" " + body);
    SplitOnceAtChar(m.name, ':', " " + body);
    IntToStringEnds(m.number);
    TrimOfPadded(" ", body, "");
    assert " " + body + "" == " " + body;
    ParseIntToString(m.number, IsizeMin, IsizeMax);
  }

  lemma ParseMathOfText(m: Monkey)
    requires WellFormed(m) && m.Math?
    ensures ParseMonkey(MonkeyText(m)) == Some(m)
  {
    var body := m.left + " " + Symbol(m.op) + " " + m.right;
    assert MonkeyText(m) == m.name + [':'] + (" " + body);
    SplitOnceAtChar(m.name, ':', " " + body);
    ParseMathBody(m.left, m.op, m.right);
    ParseOperationOfSymbol(m.op);
    assert ParseJob(m.name, body) == Some(m);
  }

  /** After the name, a math monkey's text trims to itself, is no integer,
      and splits at byte 4 into its two operands and its symbol. */
  lemma ParseMathBody(l: string, op: Operation, r: string)
    requires Utf8Length(l) == 4 && NoWhitespace(l) && r != [] && NoWhitespace(r)
    ensures Trim(" " + (l + " " + Symbol(op) + " " + r)) == l + " " + Symbol(op) + " " + r
    ensures ParseInt(l + " " + Symbol(op) + " " + r, IsizeMin, IsizeMax).None?
    ensures CharsInBytes(l + " " + Symbol(op) + " " + r, 4) == Some(|l|)
    ensures (l + " " + Symbol(op) + " " + r)[..|l|] == l
    ensures SplitOnce(Trim((l + " " + Symbol(op) + " " + r)[|l|..]), " ") == Some((Symbol(op), r))
  {
    var tail := Symbol(op) + " " + r;
    var body := l + " " + Symbol(op) + " " + r;
    assert body == l + (" " + tail);
    TrimOfPadded(" ", body, "");
    assert " " + body + "" == " " + body;
    NotAnInteger(l, " " + tail);
    CharsInBytesOfPrefix(l, " " + tail);
    assert body[|l|..] == " " + tail;
    MathTailSplits(op, r);
  }

  lemma MathTailSplits(op: Operation, r: string)
    requires r != [] && NoWhitespace(r)
    ensures SplitOnce(Trim(" " + (Symbol(op) + " " + r)), " ") == Some((Symbol(op), r))
  {
    var tail := Symbol(op) + " " + r;
    TrimOfPadded(" ", tail, "");
    assert " " + tail + "" == " " + tail;
    assert tail == Symbol(op) + [' '] + r;
    assert ' ' !in Symbol(op) by {
      assert Symbol(op) == [Symbol(op)[0]];
    }
    SplitOnceAtChar(Symbol(op), ' ', r);
  }

  /** A text with a space right after its first four bytes is no
      integer. */
  lemma NotAnInteger(l: string, rest: string)
    requires Utf8Length(l) == 4 && rest != [] && rest[0] == ' '
    ensures ParseInt(l + rest, IsizeMin, IsizeMax).None?
  {
    var s := l + rest;
    assert s[|l|] == ' ';
    if s[0] == '+' || s[0] == '-' {
      assert s[1..][|l| - 1] == ' ';
    }
  }

  /** The written integer starts with '-' or a digit and ends with a digit. */
  lemma IntToStringEnds(v: int)
    ensures !IsWhitespace(IntToString(v)[0])
    ensures !IsWhitespace(IntToString(v)[|IntToString(v)| - 1])
  {
    var digits := NatToString(if v < 0 then -v else v);
    assert IsDigit(digits[0]) && IsDigit(digits[|digits| - 1]);
  }

  /** Every monkey is stored under its own name. */
  predicate Keyed(monkeys: map<string, Monkey>) {
    forall k | k in monkeys :: monkeys[k].name == k
  }

  /** `run` parses every line. */
  function ParsedLines(lines: seq<string>): (r: seq<Option<Monkey>>)
    ensures |r| == |lines|
    ensures forall i | 0 <= i < |lines| :: r[i] == ParseMonkey(lines[i])
  {
    seq(|lines|, i requires 0 <= i < |lines| => ParseMonkey(lines[i]))
  }

  /** `run`'s collection of the parsed monkeys into a map keyed by name; a
      later monkey replaces an earlier one of the same name, and a line
      that does not parse (a panic in the source) gives None. */
  function Collect(parsed: seq<Option<Monkey>>): (r: Option<map<string, Monkey>>)
    ensures r.Some? ==> Keyed(r.value)
  {
    if parsed == [] then Some(map[])
    else
      match (Collect(parsed[..|parsed| - 1]), parsed[|parsed| - 1])
      case (Some(m), Some(monkey)) => Some(m[monkey.name := monkey])
      case _ => None
  }

  /** The map is built exactly when every line parses. */
  lemma CollectOfParsed(parsed: seq<Option<Monkey>>)
    ensures Collect(parsed).Some? <==> forall i | 0 <= i < |parsed| :: parsed[i].Some?
  {
    if Collect(parsed).Some? {
      CollectAllSome(parsed);
    } else {
      CollectNone(parsed);
    }
  }

  lemma {:induction false} CollectAllSome(parsed: seq<Option<Monkey>>)
    requires Collect(parsed).Some?
    ensures forall i | 0 <= i < |parsed| :: parsed[i].Some?
  {
    if parsed != [] {
      var init := parsed[..|parsed| - 1];
      CollectAllSome(init);
      assert forall i | 0 <= i < |init| :: init[i] == parsed[i];
    }
  }

  lemma {:induction false} CollectNone(parsed: seq<Option<Monkey>>)
    requires Collect(parsed).None?
    ensures exists i | 0 <= i < |parsed| :: parsed[i].None?
  {
    var init := parsed[..|parsed| - 1];
    if Collect(init).None? {
      CollectNone(init);
      var i :| 0 <= i < |init| && init[i].None?;
      assert init[i] == parsed[i];
    }
  }

  /** Every collected monkey comes from some line, and the last line naming
      a monkey is the one kept. */
  lemma {:induction false} CollectKeepsLast(parsed: seq<Option<Monkey>>, k: string)
    requires Collect(parsed).Some? && k in Collect(parsed).value
    ensures exists i | 0 <= i < |parsed| :: (parsed[i] == Some(Collect(parsed).value[k]) &&
      forall j | i < j < |parsed| :: parsed[j].Some? && parsed[j].value.name != k)
  {
    var init := parsed[..|parsed| - 1];
    var last := parsed[|parsed| - 1].value;
    if last.name == k {
      assert parsed[|parsed| - 1] == Some(Collect(parsed).value[k]);
    } else {
      CollectKeepsLast(init, k);
      var i :| 0 <= i < |init| && init[i] == Some(Collect(init).value[k]) &&
        forall j | i < j < |init| :: init[j].Some? && init[j].value.name != k;
      assert parsed[i] == init[i];
      forall j | i < j < |parsed|
        ensures parsed[j].Some? && parsed[j].value.name != k
      {
        if j < |init| {
          assert parsed[j] == init[j];
        }
      }
    }
  }

  // -------------------------------------------------------------- expressions

  datatype Node = Human | Number(value: int) | Op(op: Operation, left: Node, right: Node)

  /** One operation on two possibly missing values. */
  function Combine(op: Operation, a: Option<int>, b: Option<int>): Option<int> {
    if a.Some? && b.Some? && Defined(op, b.value) then Some(Apply(op, a.value, b.value)) else None
  }

  /** The value of an expression when the human yells `humn`; None when a
      division by zero occurs. */
  function Eval(e: Node, humn: int): Option<int> {
    match e
    case Human => Some(humn)
    case Number(n) => Some(n)
    case Op(op, l, r) => Combine(op, Eval(l, humn), Eval(r, humn))
  }

  predicate HasHuman(e: Node) {
    match e
    case Human => true
    case Number(_) => false
    case Op(_, l, r) => HasHuman(l) || HasHuman(r)
  }

  /** No operation has two numbers as operands. */
  predicate Folded(e: Node) {
    match e
    case Op(_, l, r) => !(l.Number? && r.Number?) && Folded(l) && Folded(r)
    case _ => true
  }

  /** Every operation is `+` or `-`. */
  predicate AddSubOnly(e: Node) {
    match e
    case Op(op, l, r) => (op == Add || op == Sub) && AddSubOnly(l) && AddSubOnly(r)
    case _ => true
  }

  function Size(e: Node): nat {
    match e
    case Op(_, l, r) => 1 + Size(l) + Size(r)
    case _ => 1
  }

  /** The number monkey `name` yells when the human yells `humn`: the
      meaning of the description itself, with `fuel` bounding the depth. */
  function Yell(name: string, monkeys: map<string, Monkey>, humn: int, fuel: nat): Option<int>
    decreases fuel
  {
    if fuel == 0 || name !in monkeys then None
    else
      match monkeys[name]
      case Yelling(n, number) => Some(if n == "humn" then humn else number)
      case Math(_, op, l, r) =>
        Combine(op, Yell(l, monkeys, humn, fuel - 1), Yell(r, monkeys, humn, fuel - 1))
  }

  /** `ASTNode::from_monkey`: "humn" becomes the unknown, other yelling
      monkeys numbers, math monkeys operations over their operands' trees.
      The source recurses without bound; `fuel` bounds the depth, and a
      missing monkey (a panic in the source) gives None. */
  function FromMonkey(name: string, monkeys: map<string, Monkey>, fuel: nat): Option<Node>
    decreases fuel
  {
    if fuel == 0 || name !in monkeys then None
    else
      match monkeys[name]
      case Yelling(n, number) => if n == "humn" then Some(Human) else Some(Number(number))
      case Math(_, op, l, r) =>
        if l !in monkeys || r !in monkeys then None
        else
          var a := FromMonkey(monkeys[l].name, monkeys, fuel - 1);
          var b := FromMonkey(monkeys[r].name, monkeys, fuel - 1);
          if a.Some? && b.Some? then Some(Op(op, a.value, b.value)) else None
  }

  /** The tree built for a monkey denotes exactly what that monkey yells. */
  lemma {:induction false} FromMonkeyMeaning(name: string, monkeys: map<string, Monkey>, humn: int, fuel: nat)
    requires Keyed(monkeys)
    ensures FromMonkey(name, monkeys, fuel).Some? ==>
      Eval(FromMonkey(name, monkeys, fuel).value, humn) == Yell(name, monkeys, humn, fuel)
    ensures FromMonkey(name, monkeys, fuel).None? ==> Yell(name, monkeys, humn, fuel).None?
    decreases fuel
  {
    if fuel > 0 && name in monkeys && monkeys[name].Math? {
      var l, r := monkeys[name].left, monkeys[name].right;
      FromMonkeyMeaning(l, monkeys, humn, fuel - 1);
      FromMonkeyMeaning(r, monkeys, humn, fuel - 1);
    }
  }

  /** Operands always name a monkey of strictly lower rank: the description
      has no cycle and no dangling operand. */
  predicate Ranked(monkeys: map<string, Monkey>, rank: map<string, nat>) {
    forall k {:trigger RankedAt(monkeys, rank, k)} | k in monkeys :: RankedAt(monkeys, rank, k)
  }

  predicate RankedAt(monkeys: map<string, Monkey>, rank: map<string, nat>, k: string) {
    k in monkeys && k in rank &&
    (monkeys[k].Math? ==>
      monkeys[k].left in monkeys && monkeys[k].left in rank && rank[monkeys[k].left] < rank[k] &&
      monkeys[k].right in monkeys && monkeys[k].right in rank && rank[monkeys[k].right] < rank[k])
  }

  /** On an acyclic description, enough fuel always builds the tree. */
  lemma {:induction false} FromMonkeyTotal(name: string, monkeys: map<string, Monkey>, rank: map<string, nat>, fuel: nat)
    requires Keyed(monkeys) && Ranked(monkeys, rank)
    requires name in monkeys && name in rank && rank[name] < fuel
    ensures FromMonkey(name, monkeys, fuel).Some?
    decreases fuel
  {
    var m := monkeys[name];
    if m.Math? {
      RankedOperands(monkeys, rank, name);
      FromMonkeyTotal(m.left, monkeys, rank, fuel - 1);
      FromMonkeyTotal(m.right, monkeys, rank, fuel - 1);
      var a := FromMonkey(m.left, monkeys, fuel - 1);
      var b := FromMonkey(m.right, monkeys, fuel - 1);
      assert FromMonkey(name, monkeys, fuel) == Some(Op(m.op, a.value, b.value));
    }
  }

  /** The operands of a monkey doing maths are monkeys of lower rank. */
  lemma RankedOperands(monkeys: map<string, Monkey>, rank: map<string, nat>, name: string)
    requires Keyed(monkeys) && Ranked(monkeys, rank) && name in monkeys && monkeys[name].Math?
    ensures var m := monkeys[name];
      name in rank && m.left in monkeys && m.right in monkeys && m.left in rank && m.right in rank &&
      rank[m.left] < rank[name] && rank[m.right] < rank[name] &&
      monkeys[m.left].name == m.left && monkeys[m.right].name == m.right
  {
    assert RankedAt(monkeys, rank, name);
  }

  // ----------------------------------------------------------- simplification

  /** `ASTNode::simplify`: folds every operation whose operands both fold to
      numbers. A division by zero among the folded numbers panics in the
      source and gives None here. */
  function Simplify(e: Node): (r: Option<Node>)
    ensures r.Some? ==> Folded(r.value)
    ensures r.Some? ==> (HasHuman(r.value) <==> HasHuman(e))
    ensures r.Some? && !HasHuman(e) ==> r.value.Number?
    ensures r.Some? && AddSubOnly(e) ==> AddSubOnly(r.value)
  {
    match e
    case Human => Some(Human)
    case Number(n) => Some(Number(n))
    case Op(op, l, r) =>
      var a := Simplify(l);
      var b := Simplify(r);
      if a.None? || b.None? then None
      else if a.value.Number? && b.value.Number? then
        if Defined(op, b.value.value) then Some(Number(Apply(op, a.value.value, b.value.value))) else None
      else Some(Op(op, a.value, b.value))
  }

  /** Simplification does not change the value, whatever the human yells. */
  lemma {:induction false} SimplifyEval(e: Node, humn: int)
    requires Simplify(e).Some?
    ensures Eval(Simplify(e).value, humn) == Eval(e, humn)
  {
    if e.Op? {
      SimplifyEval(e.left, humn);
      SimplifyEval(e.right, humn);
    }
  }

  /** Simplification only fails on an expression no value of the human can
      evaluate. */
  lemma {:induction false} SimplifyFails(e: Node, humn: int)
    requires Simplify(e).None?
    ensures Eval(e, humn).None?
  {
    if e.Op? {
      if Simplify(e.left).None? {
        SimplifyFails(e.left, humn);
      } else if Simplify(e.right).None? {
        SimplifyFails(e.right, humn);
      } else {
        SimplifyEval(e.left, humn);
        SimplifyEval(e.right, humn);
      }
    }
  }

  // ----------------------------------------------------------------- solving

  /** Which rewrite is used for `number / y = r`: the source's (y = r * number)
      or the corrected one (y = number / r). */
  datatype Rule = AsWritten | Corrected

  /** The right-hand side after moving a left operand `number` of `op` across
      the equals sign (`number • y = rn`, for `•` other than `-`). */
  function MovedLeftOperand(op: Operation, rn: int, number: int, rule: Rule): Option<int> {
    if op == Div && rule == Corrected then
      if rn != 0 then Some(TruncDiv(number, rn)) else None
    else if Defined(Inverse(op), number) then Some(Apply(Inverse(op), rn, number))
    else None
  }

  /** Decreases with every rewrite: `number - y` is first turned into the
      equally large `-1 * y`. */
  function Measure(left: Node): nat {
    2 * Size(left) + (if left.Op? && left.op == Sub && left.left.Number? then 1 else 0)
  }

  /** `ASTNode::simplify_equation`: unwinds `left = right` one operation at a
      time until the human stands alone on the left. A left-hand number, an
      operation without a number operand (panics) and a right-hand side that
      is not a number (`todo!`) give None. */
  function Reduce(left: Node, right: Node, rule: Rule): (r: Option<(Node, Node)>)
    ensures r.Some? ==> r.value.0 == Human && r.value.1.Number?
    ensures left.Number? || !right.Number? ==> r.None?
    decreases Measure(left)
  {
    if !right.Number? then None
    else
      var rn := right.value;
      match left
      case Human => Some((left, right))
      case Number(_) => None
      case Op(op, x, y) =>
        if x.Number? then
          if op == Sub then
            assert Measure(Op(Mul, Number(-1), y)) < Measure(left) by {
              assert Size(x) == 1 && Size(Number(-1)) == 1;
              assert Size(Op(Mul, Number(-1), y)) == Size(left);
            }
            Reduce(Op(Mul, Number(-1), y), Number(Apply(Inverse(Add), rn, x.value)), rule)
          else
            match MovedLeftOperand(op, rn, x.value, rule)
            case None => None
            case Some(v) => Reduce(y, Number(v), rule)
        else if y.Number? && Defined(Inverse(op), y.value) then
          Reduce(x, Number(Apply(Inverse(op), rn, y.value)), rule)
        else None
  }

  /** For `+` and `-`, every rewrite keeps the equation's solutions: the
      number found is the one and only value of the human that makes the
      left-hand side equal `rn`. */
  lemma {:induction false} ReduceSolves(left: Node, rn: int, rule: Rule, v: int)
    requires AddSubOnly(left)
    requires Reduce(left, Number(rn), rule) == Some((Human, Number(v)))
    ensures forall humn :: Eval(left, humn) == Some(rn) <==> humn == v
    decreases Size(left)
  {
    match left
    case Human =>
    case Op(op, x, y) =>
      if x.Number? {
        var n := x.value;
        if op == Sub {
          TruncDivByMinusOne(rn - n);
          assert Reduce(left, Number(rn), rule) == Reduce(y, Number(n - rn), rule);
          ReduceSolves(y, n - rn, rule, v);
        } else {
          ReduceSolves(y, rn - n, rule, v);
        }
      } else {
        ReduceSolves(x, Apply(Inverse(op), rn, y.value), rule, v);
      }
  }

  /** The source's rewrite of `number / y = r` into `y = r * number` loses
      the solution: 12 / humn = 3 is solved by 4, but unwinds to humn = 36. */
  lemma DivisionUnwoundAsWritten()
    ensures Reduce(Op(Div, Number(12), Human), Number(3), AsWritten) == Some((Human, Number(36)))
    ensures Eval(Op(Div, Number(12), Human), 36) == Some(0)
    ensures Eval(Op(Div, Number(12), Human), 4) == Some(3)
  {
    assert TruncDiv(12, 36) == 0;
    assert TruncDiv(12, 4) == 3;
  }

  /** The corrected rewrite of `number / y = rn` into `y = number / rn` is
      sound whenever the division is exact: a solution of the rewritten
      equation solves the original one. */
  lemma CorrectedDivisionSound(number: int, y: Node, rn: int, k: int, humn: int)
    requires rn != 0 && k != 0 && number == k * rn
    requires Eval(y, humn) == Some(k)
    ensures MovedLeftOperand(Div, rn, number, Corrected) == Some(k)
    ensures Reduce(Op(Div, Number(number), y), Number(rn), Corrected) == Reduce(y, Number(k), Corrected)
    ensures Eval(Op(Div, Number(number), y), humn) == Some(rn)
  {
    MulThenTruncDiv(k, rn);
    assert k * rn == rn * k;
    MulThenTruncDiv(rn, k);
  }

  lemma DivisionUnwoundCorrected()
    ensures Reduce(Op(Div, Number(12), Human), Number(3), Corrected) == Some((Human, Number(4)))
  {
    CorrectedDivisionSound(12, Human, 3, 4, 4);
  }

  // --------------------------------------------------------------------- run

  /** The two sides of the root monkey's equation, as trees. */
  function Equation(input: string): Option<(Node, Node)> {
    match Collect(ParsedLines(Lines(input)))
    case None => None
    case Some(monkeys) =>
      if "root" !in monkeys || !monkeys["root"].Math? then None
      else
        var fuel := |monkeys|;
        var l := FromMonkey(monkeys["root"].left, monkeys, fuel);
        var r := FromMonkey(monkeys["root"].right, monkeys, fuel);
        if l.Some? && r.Some? then Some((l.value, r.value)) else None
  }

  /** `run`: both sides simplified, then the equation reduced with the
      source's own rewrite of a division by the human's side. */
  function Run(input: string): (r: Option<(Node, Node)>)
    ensures r.Some? ==> r.value.0 == Human && r.value.1.Number?
    ensures r.Some? ==> Equation(input).Some?
  {
    match Equation(input)
    case None => None
    case Some((l, r)) =>
      var sl := Simplify(l);
      var sr := Simplify(r);
      if sl.Some? && sr.Some? then Reduce(sl.value, sr.value, AsWritten) else None
  }

  /** When the human's side uses only `+` and `-`, the reduced equation names
      the one value of the human that makes both sides of the root equal. */
  lemma RunSolves(input: string, v: int)
    requires Run(input) == Some((Human, Number(v)))
    requires AddSubOnly(Equation(input).value.0)
    ensures forall humn ::
      (Eval(Equation(input).value.0, humn).Some? &&
       Eval(Equation(input).value.0, humn) == Eval(Equation(input).value.1, humn)) <==> humn == v
  {
    var (l, r) := Equation(input).value;
    var sl, sr := Simplify(l).value, Simplify(r).value;
    var c := sr.value;
    ReduceSolves(sl, c, AsWritten, v);
    forall humn
      ensures Eval(l, humn) == Eval(sl, humn) && Eval(r, humn) == Some(c)
    {
      SimplifyEval(l, humn);
      SimplifyEval(r, humn);
    }
  }
}
