/** Day 13: nested packet lists, their recursive parser and their mixed
    integer/list ordering. */
module Day13Packets {
  import opened Text

  type U16 = n: nat | n <= 65535

  datatype Value = Int(n: U16) | List(list: LinkedList)
  datatype LinkedList = Empty | Cons(head: Value, tail: LinkedList)

  // ------------------------------------------------------------------ parser

  /** `LinkedList::from_chars`: reads list elements from `s` until the ']'
      that closes the current list, with `digits` the characters gathered
      for the pending integer. Returns the list and the input left after that
      ']'; None where the source panics (input exhausted, or gathered
      characters that are not a u16). Gathered characters pending when a '['
      arrives are dropped, as in the source. */
  function FromChars(s: string, digits: string): (r: Option<(LinkedList, string)>)
    ensures r.Some? ==> |r.value.1| < |s| && r.value.1 == s[|s| - |r.value.1|..]
    decreases |s|
  {
    if s == [] then None
    else
      var c, rest := s[0], s[1..];
      if c == '[' then
        match FromChars(rest, "")
        case None => None
        case Some((inner, rest1)) =>
          match FromChars(rest1, "")
          case None => None
          case Some((tail, rest2)) => Some((Cons(List(inner), tail), rest2))
      else if c == ']' then
        if digits == [] then Some((Empty, rest))
        else
          match ParseNat(digits, 65535)
          case None => None
          case Some(n) => Some((Cons(Int(n), Empty), rest))
      else if c == ',' then
        if digits != [] then
          match ParseNat(digits, 65535)
          case None => None
          case Some(n) =>
            match FromChars(rest, "")
            case None => None
            case Some((tail, rest1)) => Some((Cons(Int(n), tail), rest1))
        else FromChars(rest, digits)
      else FromChars(rest, digits + [c])
  }

  /** `LinkedList::from_string`: skip the first character (the opening '[')
      and read the rest of the list; whatever follows its ']' is ignored. */
  function FromString(s: string): (r: Option<LinkedList>)
    ensures r.Some? <==> s != [] && FromChars(s[1..], "").Some?
  {
    if s == [] then None
    else
      match FromChars(s[1..], "")
      case None => None
      case Some((list, _)) => Some(list)
  }

  // ------------------------------------------------------ reference printer

  function ValueText(v: Value): string {
    match v
    case Int(n) => NatToString(n)
    case List(l) => "[" + BodyText(l) + "]"
  }

  /** The elements of a list, separated by commas. */
  function BodyText(l: LinkedList): string {
    match l
    case Empty => ""
    case Cons(v, Empty) => ValueText(v)
    case Cons(v, t) => ValueText(v) + "," + BodyText(t)
  }

  /** The usual bracketed text of a packet. */
  function ListText(l: LinkedList): string {
    "[" + BodyText(l) + "]"
  }

  /** Characters that are neither brackets nor commas are gathered. */
  lemma {:induction false} DigitsAccumulate(d: string, x: string, buf: string)
    requires AllDigits(d)
    ensures FromChars(d + x, buf) == FromChars(x, buf + d)
    decreases |d|
  {
    if d != [] {
      assert (d + x)[1..] == d[1..] + x;
      DigitsAccumulate(d[1..], x, buf + [d[0]]);
      assert buf + [d[0]] + d[1..] == buf + d;
    } else {
      assert d + x == x;
      assert buf + d == buf;
    }
  }

  /** Reading the elements of `l` followed by ']' yields `l` and stops right
      after that ']'. */
  lemma {:induction false} ParseBody(l: LinkedList, rest: string)
    ensures FromChars(BodyText(l) + "]" + rest, "") == Some((l, rest))
    decreases l, 4
  {
    match l
    case Empty =>
      assert (BodyText(l) + "]" + rest)[1..] == rest;
    case Cons(Int(n), t) => ParseIntElement(n, t, rest);
    case Cons(List(m), t) => ParseListElement(m, t, rest);
  }

  lemma {:induction false} ParseIntElement(n: U16, t: LinkedList, rest: string)
    ensures FromChars(BodyText(Cons(Int(n), t)) + "]" + rest, "") == Some((Cons(Int(n), t), rest))
    decreases Cons(Int(n), t), 3
  {
    var d := NatToString(n);
    ParseNatToString(n, 65535);
    var x := if t == Empty then "]" + rest else "," + (BodyText(t) + "]" + rest);
    IntElementText(n, t, rest, x);
    DigitsAccumulate(d, x, "");
    assert "" + d == d;
    if t == Empty {
      assert x[0] == ']' && x[1..] == rest;
      assert FromChars(x, d) == Some((Cons(Int(n), t), rest));
    } else {
      assert x[0] == ',' && x[1..] == BodyText(t) + "]" + rest;
      ParseBody(t, rest);
      assert FromChars(x, d) == Some((Cons(Int(n), t), rest));
    }
  }

  lemma IntElementText(n: U16, t: LinkedList, rest: string, x: string)
    requires x == if t == Empty then "]" + rest else "," + (BodyText(t) + "]" + rest)
    ensures BodyText(Cons(Int(n), t)) + "]" + rest == NatToString(n) + x
  {
  }

  lemma {:induction false} ParseListElement(m: LinkedList, t: LinkedList, rest: string)
    ensures FromChars(BodyText(Cons(List(m), t)) + "]" + rest, "") == Some((Cons(List(m), t), rest))
    decreases Cons(List(m), t), 3
  {
    var x := if t == Empty then "]" + rest else "," + (BodyText(t) + "]" + rest);
    AfterNestedList(t, rest, x);
    ParseBody(m, x);
    var s := BodyText(Cons(List(m), t)) + "]" + rest;
    var inner := BodyText(m) + "]" + x;
    ListElementText(m, t, rest, x);
    assert s[0] == '[' && s[1..] == inner;
  }

  lemma ListElementText(m: LinkedList, t: LinkedList, rest: string, x: string)
    requires x == if t == Empty then "]" + rest else "," + (BodyText(t) + "]" + rest)
    ensures BodyText(Cons(List(m), t)) + "]" + rest == "[" + (BodyText(m) + "]" + x)
  {
    var sep := if t == Empty then "" else "," + BodyText(t);
    assert BodyText(Cons(List(m), t)) == "[" + BodyText(m) + "]" + sep;
    assert x == sep + "]" + rest;
  }

  /** What follows a nested list: its enclosing list's ']' or a skipped ','
      and the remaining elements. */
  lemma {:induction false} AfterNestedList(t: LinkedList, rest: string, x: string)
    requires x == if t == Empty then "]" + rest else "," + (BodyText(t) + "]" + rest)
    ensures FromChars(x, "") == Some((t, rest))
    decreases t, 5
  {
    if t == Empty {
      assert x[1..] == rest;
    } else {
      assert x[1..] == BodyText(t) + "]" + rest;
      ParseBody(t, rest);
    }
  }

  /** Parsing the text of a packet gives the packet back. */
  lemma ParseListText(l: LinkedList)
    ensures FromString(ListText(l)) == Some(l)
  {
    ParseBody(l, "");
    assert ListText(l)[1..] == BodyText(l) + "]" + "";
  }

  /** The flat lists the parser tests expect. */
  lemma ParserExamples()
    ensures FromString("[]") == Some(Empty)
    ensures FromString("[7]") == Some(Cons(Int(7), Empty))
    ensures FromString("[23]") == Some(Cons(Int(23), Empty))
  {
    ParseListText(Empty);
    assert ListText(Empty) == "[]";
    ParseListText(Cons(Int(7), Empty));
    assert ListText(Cons(Int(7), Empty)) == "[7]";
    ParseListText(Cons(Int(23), Empty));
    assert NatToString(23) == "23";
    assert ListText(Cons(Int(23), Empty)) == "[23]";
  }

  /** The two-element and nested lists the parser tests expect. */
  lemma ParserListExamples()
    ensures FromString("[7,3]") == Some(Cons(Int(7), Cons(Int(3), Empty)))
    ensures FromString("[[]]") == Some(Cons(List(Empty), Empty))
  {
    ParseListText(Cons(Int(7), Cons(Int(3), Empty)));
    assert ListText(Cons(Int(7), Cons(Int(3), Empty))) == "[7,3]";
    ParseListText(Cons(List(Empty), Empty));
    assert ListText(Cons(List(Empty), Empty)) == "[[]]";
  }

  /** The tree the nested-list test expects for "[[],1,[2,3],4,[5,[6],7]]". */
  lemma ParserNestedExample()
    ensures FromString("[[],1,[2,3],4,[5,[6],7]]") == Some(
      Cons(List(Empty),
      Cons(Int(1),
      Cons(List(Cons(Int(2), Cons(Int(3), Empty))),
      Cons(Int(4),
      Cons(List(Cons(Int(5), Cons(List(Cons(Int(6), Empty)), Cons(Int(7), Empty)))),
      Empty))))))
  {
    var l := NestedExample();
    NestedExampleText();
    ParseListText(l);
  }

  function NestedExample(): LinkedList {
    Cons(List(Empty),
    Cons(Int(1),
    Cons(List(Cons(Int(2), Cons(Int(3), Empty))),
    Cons(Int(4),
    Cons(List(Cons(Int(5), Cons(List(Cons(Int(6), Empty)), Cons(Int(7), Empty)))),
    Empty)))))
  }

  lemma NestedExampleText()
    ensures ListText(NestedExample()) == "[[],1,[2,3],4,[5,[6],7]]"
  {
    NestedExampleOuter();
    assert BodyText(NestedExample()) == "[]," + "1,[2,3],4,[5,[6],7]";
  }

  lemma NestedExampleOuter()
    ensures BodyText(Cons(Int(1), Cons(List(Cons(Int(2), Cons(Int(3), Empty))), Cons(Int(4), Cons(List(Cons(Int(5), Cons(List(Cons(Int(6), Empty)), Cons(Int(7), Empty)))), Empty)))))
      == "1,[2,3],4,[5,[6],7]"
  {
    NestedExampleMiddle();
    var l23 := Cons(Int(2), Cons(Int(3), Empty));
    var l567 := Cons(Int(5), Cons(List(Cons(Int(6), Empty)), Cons(Int(7), Empty)));
    var l4 := Cons(Int(4), Cons(List(l567), Empty));
    var mid := Cons(List(l23), l4);
    assert BodyText(mid) == "[2,3]" + "," + "4,[5,[6],7]";
    assert BodyText(mid) == "[2,3],4,[5,[6],7]";
    assert BodyText(Cons(Int(1), mid)) == ValueText(Int(1)) + "," + BodyText(mid);
    assert NatToString(1) == "1";
  }

  lemma NestedExampleMiddle()
    ensures ValueText(List(Cons(Int(2), Cons(Int(3), Empty)))) == "[2,3]"
    ensures BodyText(Cons(Int(4), Cons(List(Cons(Int(5), Cons(List(Cons(Int(6), Empty)), Cons(Int(7), Empty)))), Empty)))
      == "4,[5,[6],7]"
  {
    NestedExampleInner();
    var l567 := Cons(Int(5), Cons(List(Cons(Int(6), Empty)), Cons(Int(7), Empty)));
    assert BodyText(Cons(List(l567), Empty)) == "[5,[6],7]";
  }

  lemma NestedExampleInner()
    ensures ValueText(List(Cons(Int(2), Cons(Int(3), Empty)))) == "[2,3]"
    ensures ValueText(List(Cons(Int(5), Cons(List(Cons(Int(6), Empty)), Cons(Int(7), Empty))))) == "[5,[6],7]"
  {
    assert BodyText(Cons(Int(3), Empty)) == "3";
    assert BodyText(Cons(Int(2), Cons(Int(3), Empty))) == "2," + "3";
    assert ValueText(List(Cons(Int(6), Empty))) == "[6]";
    assert BodyText(Cons(Int(7), Empty)) == "7";
    assert BodyText(Cons(List(Cons(Int(6), Empty)), Cons(Int(7), Empty))) == "[6]," + "7";
    assert BodyText(Cons(Int(5), Cons(List(Cons(Int(6), Empty)), Cons(Int(7), Empty)))) == "5," + "[6],7";
  }

  // ---------------------------------------------------------------- ordering

  datatype Ordering = Less | Equal | Greater

  function Flip(o: Ordering): Ordering {
    match o
    case Less => Greater
    case Equal => Equal
    case Greater => Less
  }

  /** `u16::partial_cmp`. */
  function CompareInts(x: int, y: int): (o: Ordering)
    ensures (o == Less) == (x < y) && (o == Equal) == (x == y) && (o == Greater) == (x > y)
  {
    if x < y then Less else if x == y then Equal else Greater
  }

  function Size(l: LinkedList): nat {
    match l
    case Empty => 0
    case Cons(v, t) => 1 + ValueSize(v) + Size(t)
  }

  function ValueSize(v: Value): nat {
    match v
    case Int(_) => 0
    case List(l) => 1 + Size(l)
  }

  /** `PartialOrd::partial_cmp` on packets. Every branch of the source yields
      `Some`, so the comparison is total and is stated on `Ordering`. Integers
      compare numerically; an integer facing a list is wrapped as a
      one-element list; a tie on the heads compares the tails; an exhausted
      list comes first. */
  function Compare(a: LinkedList, b: LinkedList): (o: Ordering)
    ensures a == b ==> o == Equal
    decreases Size(a) + Size(b), 1
  {
    match a
    case Empty => if b.Empty? then Equal else Less
    case Cons(v, t) =>
      match b
      case Empty => Greater
      case Cons(w, u) =>
        var head := CompareHeads(v, w, a, b);
        if head == Equal then Compare(t, u) else head
  }

  /** The head comparison inside `partial_cmp`; `a` and `b` are the lists
      whose heads `v` and `w` are, and only bound the recursion. */
  function CompareHeads(v: Value, w: Value, a: LinkedList, b: LinkedList): (o: Ordering)
    requires a.Cons? && b.Cons? && a.head == v && b.head == w
    ensures v == w ==> o == Equal
    decreases Size(a) + Size(b), 0
  {
    assert Size(a) == 1 + ValueSize(v) + Size(a.tail);
    assert Size(b) == 1 + ValueSize(w) + Size(b.tail);
    match v
    case Int(x) =>
      (match w
       case Int(y) => CompareInts(x, y)
       case List(n) =>
         assert Size(Cons(Int(x), Empty)) == 1;
         Compare(Cons(Int(x), Empty), n))
    case List(m) =>
      match w
      case Int(y) =>
        assert Size(Cons(Int(y), Empty)) == 1;
        Compare(m, Cons(Int(y), Empty))
      case List(n) => Compare(m, n)
  }

  /** Swapping the operands reverses the ordering. */
  lemma {:induction false} CompareFlip(a: LinkedList, b: LinkedList)
    ensures Compare(b, a) == Flip(Compare(a, b))
    decreases Size(a) + Size(b), 1
  {
    match a
    case Empty =>
    case Cons(v, t) =>
      match b {
        case Empty =>
        case Cons(w, u) =>
          CompareHeadsFlip(v, w, a, b);
          CompareFlip(t, u);
      }
  }

  lemma {:induction false} CompareHeadsFlip(v: Value, w: Value, a: LinkedList, b: LinkedList)
    requires a.Cons? && b.Cons? && a.head == v && b.head == w
    ensures CompareHeads(w, v, b, a) == Flip(CompareHeads(v, w, a, b))
    decreases Size(a) + Size(b), 0
  {
    assert Size(a) == 1 + ValueSize(v) + Size(a.tail);
    assert Size(b) == 1 + ValueSize(w) + Size(b.tail);
    match v
    case Int(x) =>
      match w {
        case Int(y) =>
        case List(n) =>
          assert Size(Cons(Int(x), Empty)) == 1;
          CompareFlip(Cons(Int(x), Empty), n);
      }
    case List(m) =>
      match w {
        case Int(y) =>
          assert Size(Cons(Int(y), Empty)) == 1;
          CompareFlip(m, Cons(Int(y), Empty));
        case List(n) => CompareFlip(m, n);
      }
  }

  /** The ordering tests: [] < [1], [1] < [3], [1] equals [[1]] although the
      trees differ, [[1],[2,3,4]] < [[1],4], and [[10]] > [5]. */
  lemma OrderingExamples()
    ensures Compare(Empty, Cons(Int(1), Empty)) == Less
    ensures Compare(Cons(Int(1), Empty), Cons(Int(3), Empty)) == Less
    ensures Compare(Cons(Int(1), Empty), Cons(List(Cons(Int(1), Empty)), Empty)) == Equal
    ensures Compare(
      Cons(List(Cons(Int(1), Empty)), Cons(List(Cons(Int(2), Cons(Int(3), Cons(Int(4), Empty)))), Empty)),
      Cons(List(Cons(Int(1), Empty)), Cons(Int(4), Empty))) == Less
    ensures Compare(Cons(List(Cons(Int(10), Empty)), Empty), Cons(Int(5), Empty)) == Greater
  {
  }

  // ------------------------------------------------------------ pair sum

  /** The sum of the 1-based indices of the pairs whose left packet comes
      first. */
  function OrderedIndexSum(pairs: seq<(LinkedList, LinkedList)>): nat {
    if pairs == [] then 0
    else
      var n := |pairs|;
      OrderedIndexSum(pairs[..n - 1]) + (if Compare(pairs[n - 1].0, pairs[n - 1].1) == Less then n else 0)
  }

  function Swapped(pairs: seq<(LinkedList, LinkedList)>): (r: seq<(LinkedList, LinkedList)>)
    ensures |r| == |pairs| && forall i | 0 <= i < |pairs| :: r[i] == (pairs[i].1, pairs[i].0)
  {
    seq(|pairs|, i requires 0 <= i < |pairs| => (pairs[i].1, pairs[i].0))
  }

  /** 1 + 2 + ... + n. */
  function Triangle(n: nat): nat {
    if n == 0 then 0 else Triangle(n - 1) + n
  }

  lemma {:induction false} TriangleClosedForm(n: nat)
    ensures 2 * Triangle(n) == n * (n + 1)
  {
    if n > 0 {
      TriangleClosedForm(n - 1);
      assert n * (n + 1) == (n - 1) * n + 2 * n;
    }
  }

  /** An index is counted for a pair or for its swap, never both, so the two
      sums together stay within 1 + 2 + ... + n, and reach it exactly when no
      pair compares Equal. */
  lemma {:induction false} OrderedIndexSumSwapped(pairs: seq<(LinkedList, LinkedList)>)
    ensures OrderedIndexSum(pairs) + OrderedIndexSum(Swapped(pairs)) <= Triangle(|pairs|)
    ensures (forall i | 0 <= i < |pairs| :: Compare(pairs[i].0, pairs[i].1) != Equal) ==>
      OrderedIndexSum(pairs) + OrderedIndexSum(Swapped(pairs)) == Triangle(|pairs|)
  {
    if pairs != [] {
      var n := |pairs|;
      var init := pairs[..n - 1];
      OrderedIndexSumSwapped(init);
      LastPairCounted(pairs);
      if forall i | 0 <= i < n :: Compare(pairs[i].0, pairs[i].1) != Equal {
        assert forall i | 0 <= i < n - 1 :: init[i] == pairs[i];
      }
    }
  }

  /** The last pair adds its index to at most one of the two sums, and to
      one of them when it does not compare Equal. */
  lemma LastPairCounted(pairs: seq<(LinkedList, LinkedList)>)
    requires pairs != []
    ensures var n := |pairs|;
      var c := OrderedIndexSum(pairs) + OrderedIndexSum(Swapped(pairs)) -
        (OrderedIndexSum(pairs[..n - 1]) + OrderedIndexSum(Swapped(pairs[..n - 1])));
      0 <= c <= n && (Compare(pairs[n - 1].0, pairs[n - 1].1) != Equal ==> c == n)
  {
    var n := |pairs|;
    assert Swapped(pairs)[..n - 1] == Swapped(pairs[..n - 1]);
    CompareFlip(pairs[n - 1].0, pairs[n - 1].1);
  }

  /** The pair loop of `run`: enumerate the pairs from index 1 and add the
      index of every pair whose left packet compares Less. */
  method SumOfOrderedIndexes(pairs: seq<(LinkedList, LinkedList)>) returns (sum: nat)
    ensures sum == OrderedIndexSum(pairs)
  {
    sum := 0;
    var i := 0;
    while i < |pairs|
      invariant 0 <= i <= |pairs|
      invariant sum == OrderedIndexSum(pairs[..i])
    {
      var pairIndex := i + 1;
      var (left, right) := pairs[i];
      assert pairs[..i + 1][..i] == pairs[..i];
      if Compare(left, right) == Less {
        sum := sum + pairIndex;
      }
      i := i + 1;
    }
    assert pairs[..|pairs|] == pairs;
  }
}
