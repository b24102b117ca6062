/** Day 3, "Rucksack Reorganization", second part: the lines are taken three
    at a time; each group's badge is an item type found in all three
    rucksacks, and the answer is the sum of the badges' priorities. */
module Day3Rucksacks {
  import opened Text

  predicate IsLower(c: char) {
    'a' <= c <= 'z'
  }

  predicate IsUpper(c: char) {
    'A' <= c <= 'Z'
  }

  /** `priority`: a lower-case letter counts from 1, anything else is
      measured from 'A' plus 27. */
  function Priority(c: char): (p: int)
    ensures IsLower(c) ==> 1 <= p <= 26
    ensures IsUpper(c) ==> 27 <= p <= 52
  {
    if IsLower(c) then c as int - 'a' as int + 1
    else c as int - 'A' as int + 27
  }

  /** Distinct letters have distinct priorities. */
  lemma PriorityInjective(c: char, d: char)
    requires IsLower(c) || IsUpper(c)
    requires IsLower(d) || IsUpper(d)
    requires Priority(c) == Priority(d)
    ensures c == d
  { }

  /** Every priority from 1 to 52 belongs to a letter. */
  lemma PriorityOnto(p: int)
    requires 1 <= p <= 52
    ensures exists c :: (IsLower(c) || IsUpper(c)) && Priority(c) == p
  {
    var c := if p <= 26 then ('a' as int + p - 1) as char else ('A' as int + p - 27) as char;
    assert Priority(c) == p;
  }

  /** The item types found in all three rucksacks of a group: the
      intersection of the three lines' character sets. */
  function Common(line1: string, line2: string, line3: string): (r: set<char>)
    ensures forall c :: c in r <==> c in line1 && c in line2 && c in line3
  {
    set c | c in line1 && c in line2 && c in line3
  }

  /** The lines split into the groups `lines.chunks(3)` gives, when every
      chunk is complete; a short last chunk makes the code index past its
      end and panic. */
  predicate GroupsComplete(lines: seq<string>) {
    |lines| % 3 == 0
  }

  predicate HasBadge(lines: seq<string>, g: nat)
    requires 3 * g + 2 < |lines|
  {
    Common(lines[3 * g], lines[3 * g + 1], lines[3 * g + 2]) != {}
  }

  /** The sum of the priorities of `badges`. */
  function SumPriorities(badges: seq<char>): int {
    if badges == [] then 0 else SumPriorities(badges[..|badges| - 1]) + Priority(badges[|badges| - 1])
  }

  /** `badges` holds, for each of the first `|badges|` groups, an item type
      common to the group's three lines. */
  ghost predicate BadgesOf(lines: seq<string>, badges: seq<char>) {
    3 * |badges| <= |lines| &&
    forall g | 0 <= g < |badges| :: badges[g] in Common(lines[3 * g], lines[3 * g + 1], lines[3 * g + 2])
  }

  /** The loop of `run`: the badge of each group is one element of the
      three-way intersection (the code takes whichever the hash set yields
      first), and its priority is added to the total. `None` where the code
      panics: a group without a common item, or an incomplete last group. */
  method SumOfBadges(lines: seq<string>) returns (total: Option<int>, ghost badges: seq<char>)
    ensures total.Some? <==> GroupsComplete(lines) && forall g | 0 <= g < |lines| / 3 :: HasBadge(lines, g)
    ensures total.Some? ==> |badges| == |lines| / 3 && BadgesOf(lines, badges) && total.value == SumPriorities(badges)
  {
    var sum := 0;
    badges := [];
    var g := 0;
    while 3 * g < |lines|
      invariant 3 * g <= |lines| && g == |badges|
      invariant BadgesOf(lines, badges) && sum == SumPriorities(badges)
      invariant forall h | 0 <= h < g :: HasBadge(lines, h)
    {
      if 3 * g + 2 >= |lines| {
        return None, badges;
      }
      var common := Common(lines[3 * g], lines[3 * g + 1], lines[3 * g + 2]);
      if common == {} {
        assert !HasBadge(lines, g);
        assert GroupsComplete(lines) ==> g < |lines| / 3;
        return None, badges;
      }
      var badge :| badge in common;
      assert (badges + [badge])[..|badges|] == badges;
      badges := badges + [badge];
      sum := sum + Priority(badge);
      g := g + 1;
    }
    assert 3 * g == |lines| && g == |lines| / 3;
    return Some(sum), badges;
  }

  /** When every group shares exactly one item type, the total is fixed:
      any two choices of badges are the same. */
  lemma {:induction false} BadgesUnique(lines: seq<string>, a: seq<char>, b: seq<char>)
    requires BadgesOf(lines, a) && BadgesOf(lines, b) && |a| == |b|
    requires forall g | 0 <= g < |a| :: |Common(lines[3 * g], lines[3 * g + 1], lines[3 * g + 2])| == 1
    ensures a == b
  {
    forall g | 0 <= g < |a|
      ensures a[g] == b[g]
    {
      var common := Common(lines[3 * g], lines[3 * g + 1], lines[3 * g + 2]);
      assert a[g] in common && b[g] in common;
      if a[g] != b[g] {
        assert {a[g], b[g]} <= common;
        assert |{a[g], b[g]}| == 2;
        SubsetCard({a[g], b[g]}, common);
      }
    }
  }
}
