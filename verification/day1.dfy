/** Day 1, "Calorie Counting", second part: the input lists the calories
    each elf carries, one number per line, elves separated by a blank line;
    the answer is the total carried by the three elves carrying the most. */
module Day1Calories {
  import opened Text

  const I32Min: int := -0x8000_0000
  const I32Max: int := 0x7FFF_FFFF

  function Sum(xs: seq<int>): int {
    if xs == [] then 0 else xs[0] + Sum(xs[1..])
  }

  // ---------------------------------------------------------------- group sums

  /** One elf's lines, each parsed as an `i32` and summed; a line that does
      not parse (an empty one included) panics, given as `None`. */
  function GroupSum(chunk: string): (r: Option<int>)
    ensures r.Some? ==> forall i | 0 <= i < |Split(chunk, '\n')| :: ParseInt(Split(chunk, '\n')[i], I32Min, I32Max).Some?
    ensures r.None? ==> exists i | 0 <= i < |Split(chunk, '\n')| :: ParseInt(Split(chunk, '\n')[i], I32Min, I32Max).None?
  {
    var lines := Split(chunk, '\n');
    var parsed := ParseInts(lines, I32Min, I32Max);
    if parsed.None? then None else Some(Sum(parsed.value))
  }

  /** The vector built from the input: one sum per blank-line-separated
      group, in input order. */
  function GroupSums(input: string): (r: Option<seq<int>>)
    ensures r.Some? ==> forall i | 0 <= i < |SplitOn(input, "\n\n")| :: GroupSum(SplitOn(input, "\n\n")[i]).Some?
    ensures r.None? ==> exists i | 0 <= i < |SplitOn(input, "\n\n")| :: GroupSum(SplitOn(input, "\n\n")[i]).None?
    ensures r.Some? ==> |r.value| == |SplitOn(input, "\n\n")|
  {
    var chunks := SplitOn(input, "\n\n");
    var sums := seq(|chunks|, i requires 0 <= i < |chunks| => GroupSum(chunks[i]));
    assert forall i | 0 <= i < |chunks| :: sums[i] == GroupSum(chunks[i]);
    AllSome(sums)
  }

  /** One elf's calories, one number per line. */
  function FormatGroup(values: seq<int>): string {
    Join(seq(|values|, i requires 0 <= i < |values| => IntToString(values[i])), '\n')
  }

  /** The whole input: the groups separated by blank lines. */
  function FormatInventory(groups: seq<seq<int>>): string {
    JoinOn(seq(|groups|, i requires 0 <= i < |groups| => FormatGroup(groups[i])), "\n\n")
  }

  predicate InI32(values: seq<int>) {
    forall i | 0 <= i < |values| :: I32Min <= values[i] <= I32Max
  }

  /** Every line break in `s` is followed by a character that is not one. */
  predicate NoBlankLine(s: string) {
    forall j | 0 <= j < |s| && s[j] == '\n' :: j + 1 < |s| && s[j + 1] != '\n'
  }

  /** Non-empty pieces without a line break, joined by line breaks, hold
      no blank line and start with the first piece's first character. */
  lemma {:induction false} JoinHasNoBlankLine(pieces: seq<string>)
    requires pieces != []
    requires forall k | 0 <= k < |pieces| :: pieces[k] != [] && '\n' !in pieces[k]
    ensures NoBlankLine(Join(pieces, '\n'))
    ensures Join(pieces, '\n') != [] && Join(pieces, '\n')[0] == pieces[0][0]
  {
    if |pieces| > 1 {
      var a, rest := pieces[0], Join(pieces[1..], '\n');
      JoinHasNoBlankLine(pieces[1..]);
      var s := a + ['\n'] + rest;
      assert Join(pieces, '\n') == s;
      forall j | 0 <= j < |a|
        ensures s[j] != '\n'
      {
        assert s[j] == a[j];
      }
      forall j | |a| < j < |s| && s[j] == '\n'
        ensures j + 1 < |s| && s[j + 1] != '\n'
      {
        assert s[j] == rest[j - |a| - 1] && s[j + 1] == rest[j - |a|];
      }
    }
  }

  /** A text without blank lines that does not end in a line break is
      followed by the first blank line that is appended. */
  lemma NoBlankLineSeparated(a: string)
    requires NoBlankLine(a)
    ensures SeparatedBy(a, "\n\n")
  {
    var pat := "\n\n";
    var s := a + pat;
    forall j | 0 <= j < |a|
      ensures !OccursAt(s, pat, j)
    {
      assert s[j] == a[j];
      if a[j] == '\n' {
        assert s[j + 1] == a[j + 1];
        assert s[j..j + 2][1] != '\n';
      } else {
        assert s[j..j + 2][0] != '\n';
      }
    }
  }

  /** A group written one number per line reads back as its sum. */
  lemma GroupSumFormatted(values: seq<int>)
    requires values != [] && InI32(values)
    ensures GroupSum(FormatGroup(values)) == Some(Sum(values))
    ensures SeparatedBy(FormatGroup(values), "\n\n")
  {
    var strs := seq(|values|, i requires 0 <= i < |values| => IntToString(values[i]));
    forall k | 0 <= k < |strs|
      ensures strs[k] != [] && '\n' !in strs[k]
      ensures ParseInt(strs[k], I32Min, I32Max) == Some(values[k])
    {
      IntToStringChars(values[k]);
      ParseIntToString(values[k], I32Min, I32Max);
    }
    SplitJoin(strs, '\n');
    var parsed := ParseInts(strs, I32Min, I32Max);
    assert parsed.Some?;
    assert parsed.value == values;
    JoinHasNoBlankLine(strs);
    NoBlankLineSeparated(FormatGroup(values));
  }

  /** An inventory written as the puzzle writes it reads back as the sums
      of its groups. */
  lemma GroupSumsFormatted(groups: seq<seq<int>>)
    requires groups != []
    requires forall k | 0 <= k < |groups| :: groups[k] != [] && InI32(groups[k])
    ensures GroupSums(FormatInventory(groups)) == Some(seq(|groups|, i requires 0 <= i < |groups| => Sum(groups[i])))
  {
    var chunks := seq(|groups|, i requires 0 <= i < |groups| => FormatGroup(groups[i]));
    forall k | 0 <= k < |groups|
      ensures GroupSum(chunks[k]) == Some(Sum(groups[k]))
      ensures SeparatedBy(chunks[k], "\n\n")
    {
      GroupSumFormatted(groups[k]);
    }
    SplitOnJoinOn(chunks, "\n\n");
    var sums := seq(|groups|, i requires 0 <= i < |groups| => Sum(groups[i]));
    var opts := seq(|chunks|, i requires 0 <= i < |chunks| => GroupSum(chunks[i]));
    assert SplitOn(FormatInventory(groups), "\n\n") == chunks;
    assert GroupSums(FormatInventory(groups)) == AllSome(opts);
    assert AllSome(opts).value == sums;
  }

  // ---------------------------------------------------------------- top three

  predicate Ascending(s: seq<int>) {
    forall i, j | 0 <= i < j < |s| :: s[i] <= s[j]
  }

  predicate Descending(s: seq<int>) {
    forall i, j | 0 <= i < j < |s| :: s[i] >= s[j]
  }

  lemma AscendingCons(h: int, t: seq<int>)
    requires Ascending(t) && (t != [] ==> h <= t[0])
    ensures Ascending([h] + t)
  {
    var s := [h] + t;
    forall i, j | 0 <= i < j < |s|
      ensures s[i] <= s[j]
    {
      if i == 0 {
        assert s[j] == t[j - 1] && t[0] <= t[j - 1];
      }
    }
  }

  /** `x` put in its place among the ascending values `s`. */
  function InsertSorted(x: int, s: seq<int>): (r: seq<int>)
    requires Ascending(s)
    ensures Ascending(r) && multiset(r) == multiset(s) + multiset{x}
    ensures |r| == |s| + 1 && (r[0] == x || (s != [] && r[0] == s[0]))
  {
    if s == [] || x <= s[0] then
      AscendingCons(x, s);
      [x] + s
    else
      var tail := InsertSorted(x, s[1..]);
      assert s == [s[0]] + s[1..];
      assert tail[0] == x || tail[0] == s[1];
      AscendingCons(s[0], tail);
      [s[0]] + tail
  }

  /** What `sort` leaves in the vector: the same values in ascending order. */
  function SortAsc(xs: seq<int>): (r: seq<int>)
    ensures Ascending(r) && multiset(r) == multiset(xs)
  {
    if xs == [] then []
    else
      assert xs == [xs[0]] + xs[1..];
      InsertSorted(xs[0], SortAsc(xs[1..]))
  }

  /** Two ascending sequences with the same elements are equal: the order
      after sorting depends only on the values. */
  lemma {:induction false} SortedUnique(a: seq<int>, b: seq<int>)
    requires Ascending(a) && Ascending(b) && multiset(a) == multiset(b)
    ensures a == b
  {
    if a == [] {
      assert |b| == |multiset(b)| == 0;
    } else {
      SameLeast(a, b);
      SameRest(a, b);
      AscendingTail(a);
      AscendingTail(b);
      SortedUnique(a[1..], b[1..]);
      assert a == [a[0]] + a[1..] && b == [b[0]] + b[1..];
    }
  }

  /** Two ascending sequences with the same elements start with the same
      least value. */
  lemma SameLeast(a: seq<int>, b: seq<int>)
    requires Ascending(a) && Ascending(b) && multiset(a) == multiset(b) && a != []
    ensures b != [] && a[0] == b[0]
  {
    assert a[0] in multiset(b);
    var i :| 0 <= i < |b| && b[i] == a[0];
    assert b[0] in multiset(a);
    var j :| 0 <= j < |a| && a[j] == b[0];
    assert b[0] <= b[i] && a[0] <= a[j];
  }

  lemma SameRest(a: seq<int>, b: seq<int>)
    requires a != [] && b != [] && a[0] == b[0] && multiset(a) == multiset(b)
    ensures multiset(a[1..]) == multiset(b[1..])
  {
    assert a == [a[0]] + a[1..] && b == [b[0]] + b[1..];
    assert multiset(a[1..]) == multiset(a) - multiset{a[0]};
    assert multiset(b[1..]) == multiset(b) - multiset{a[0]};
  }

  lemma AscendingTail(a: seq<int>)
    requires Ascending(a) && a != []
    ensures Ascending(a[1..])
  {
    forall i, j | 0 <= i < j < |a| - 1
      ensures a[1..][i] <= a[1..][j]
    {
      assert a[1..][i] == a[i + 1] && a[1..][j] == a[j + 1];
    }
  }

  lemma {:induction false} ReverseMultiset(s: seq<int>)
    ensures multiset(Reverse(s)) == multiset(s)
  {
    if s != [] {
      ReverseMultiset(s[1..]);
      assert s == [s[0]] + s[1..];
    }
  }

  /** The first `k` values of a descending sequence: descending, drawn
      from it, and no smaller than any value left out. */
  lemma {:induction false} PrefixDominates(desc: seq<int>, k: nat)
    requires Descending(desc) && k <= |desc|
    ensures Descending(desc[..k]) && multiset(desc[..k]) <= multiset(desc)
    ensures forall x, y | x in desc[..k] && y in multiset(desc) - multiset(desc[..k]) :: y <= x
  {
    var top, dropped := desc[..k], desc[k..];
    assert desc == top + dropped;
    assert multiset(desc) - multiset(top) == multiset(dropped);
    forall x, y | x in top && y in multiset(dropped)
      ensures y <= x
    {
      var i :| 0 <= i < k && top[i] == x;
      var j :| 0 <= j < |desc| - k && dropped[j] == y;
      assert desc[i] == x && desc[k + j] == y;
    }
    forall i, j | 0 <= i < j < k
      ensures top[i] >= top[j]
    {
      assert top[i] == desc[i] && top[j] == desc[j];
    }
  }

  /** Reversing an ascending sequence gives a descending one with the same
      elements. */
  lemma ReverseAscending(s: seq<int>)
    requires Ascending(s)
    ensures Descending(Reverse(s)) && multiset(Reverse(s)) == multiset(s)
  {
    ReverseMultiset(s);
  }

  /** What `sort`, `reverse` and `truncate(3)` leave: at most three values,
      largest first, taken from `sums`, none smaller than a value left out. */
  function TopThree(sums: seq<int>): (r: seq<int>)
    ensures |r| == if |sums| < 3 then |sums| else 3
    ensures Descending(r)
    ensures multiset(r) <= multiset(sums)
    ensures forall x, y | x in r && y in multiset(sums) - multiset(r) :: y <= x
  {
    var desc := Reverse(SortAsc(sums));
    ReverseAscending(SortAsc(sums));
    var k := if |desc| < 3 then |desc| else 3;
    PrefixDominates(desc, k);
    desc[..k]
  }

  /** The kept values do not depend on the order of the groups. */
  lemma TopThreeOrderIrrelevant(a: seq<int>, b: seq<int>)
    requires multiset(a) == multiset(b)
    ensures TopThree(a) == TopThree(b)
  {
    SortedUnique(SortAsc(a), SortAsc(b));
  }

  /** The first kept value is the largest group sum. */
  lemma TopThreeHasMax(sums: seq<int>)
    requires sums != []
    ensures forall i | 0 <= i < |sums| :: sums[i] <= TopThree(sums)[0]
  {
    var top := TopThree(sums);
    forall i | 0 <= i < |sums|
      ensures sums[i] <= top[0]
    {
      assert sums[i] in multiset(sums);
      if sums[i] !in top {
        assert sums[i] in multiset(sums) - multiset(top);
      }
    }
  }

  /** `run`: the sum of the three largest group sums, or `None` where the
      parsing panics. */
  function TopThreeTotal(input: string): (r: Option<int>)
    ensures r.Some? <==> GroupSums(input).Some?
  {
    match GroupSums(input)
    case None => None
    case Some(sums) => Some(Sum(TopThree(sums)))
  }

  /** Inputs whose groups have the same sums, in any order, have the same
      answer. */
  lemma TopThreeTotalOrderIrrelevant(input: string, shuffled: string)
    requires GroupSums(input).Some? && GroupSums(shuffled).Some?
    requires multiset(GroupSums(input).value) == multiset(GroupSums(shuffled).value)
    ensures TopThreeTotal(input) == TopThreeTotal(shuffled)
  {
    TopThreeOrderIrrelevant(GroupSums(input).value, GroupSums(shuffled).value);
  }
}
