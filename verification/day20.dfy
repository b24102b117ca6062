/** Day 20, "Grove Positioning System": mixing an encrypted file. Each
    number moves forward or backward through a circular list by its own
    value; afterwards the numbers 1000, 2000 and 3000 places after the 0 are
    the grove coordinates. */
module Day20Mixing {
  import opened Text

  const DecryptionKey: int := 811589153
  const I64Min: int := -0x8000_0000_0000_0000
  const I64Max: int := 0x7FFF_FFFF_FFFF_FFFF
  const U32Limit: int := 0x1_0000_0000

  /** A number of the file and the position it had in the input, which
      tells equal numbers apart. */
  type Elem = (int, nat)

  // ------------------------------------------------------ sequence helpers

  function RemoveAt<T>(s: seq<T>, i: nat): (r: seq<T>)
    requires i < |s|
    ensures |r| == |s| - 1
  {
    s[..i] + s[i + 1..]
  }

  function InsertAt<T>(s: seq<T>, i: nat, x: T): (r: seq<T>)
    requires i <= |s|
    ensures |r| == |s| + 1 && r[i] == x
  {
    s[..i] + [x] + s[i..]
  }

  /** Removing what was just inserted gives the sequence back. */
  lemma RemoveInserted<T>(s: seq<T>, i: nat, x: T)
    requires i <= |s|
    ensures RemoveAt(InsertAt(s, i, x), i) == s
  {
    var t := InsertAt(s, i, x);
    assert t[..i] == s[..i];
    assert t[i + 1..] == s[i..];
    assert s == s[..i] + s[i..];
  }

  /** Taking an element out and putting it back elsewhere keeps the multiset. */
  lemma RemoveInsertMultiset<T>(s: seq<T>, i: nat, j: nat)
    requires i < |s| && j <= |s| - 1
    ensures multiset(InsertAt(RemoveAt(s, i), j, s[i])) == multiset(s)
  {
    var t := RemoveAt(s, i);
    assert s == s[..i] + [s[i]] + s[i + 1..];
    assert t == t[..j] + t[j..];
    calc {
      multiset(InsertAt(t, j, s[i]));
      multiset(t[..j]) + multiset([s[i]]) + multiset(t[j..]);
      multiset(t) + multiset([s[i]]);
      multiset(s[..i]) + multiset(s[i + 1..]) + multiset([s[i]]);
      multiset(s);
    }
  }

  // --------------------------------------------------------- specification

  function Ids(s: seq<Elem>): set<nat> {
    set e | e in s :: e.1
  }

  function Values(s: seq<Elem>): set<int> {
    set e | e in s :: e.0
  }

  lemma SameMultisetSameIds(s: seq<Elem>, t: seq<Elem>)
    requires multiset(s) == multiset(t)
    ensures Ids(s) == Ids(t) && Values(s) == Values(t)
  {
    forall e ensures e in s <==> e in t {
      assert e in s <==> e in multiset(s);
      assert e in t <==> e in multiset(t);
    }
  }

  /** The first position holding id `id` (`Iterator::position`). */
  function FirstIdIndex(s: seq<Elem>, id: nat): (i: nat)
    requires id in Ids(s)
    ensures i < |s| && s[i].1 == id
    ensures forall k | 0 <= k < i :: s[k].1 != id
  {
    if s[0].1 == id then 0
    else
      assert id in Ids(s[1..]) by {
        var e :| e in s && e.1 == id;
        assert e != s[0];
      }
      1 + FirstIdIndex(s[1..], id)
  }

  /** The first position holding the number 0. */
  function ZeroIndex(s: seq<Elem>): (i: nat)
    requires 0 in Values(s)
    ensures i < |s| && s[i].0 == 0
    ensures forall k | 0 <= k < i :: s[k].0 != 0
  {
    if s[0].0 == 0 then 0
    else
      assert 0 in Values(s[1..]) by {
        var e :| e in s && e.0 == 0;
        assert e != s[0];
      }
      1 + ZeroIndex(s[1..])
  }

  /** Where `move_element` re-inserts an element found at `current` that
      moves by `number` in a list of `len` elements: Rust's truncating `%`
      by `len - 1`, shifted into range when it comes out negative. */
  function NewIndex(current: nat, number: int, len: nat): (r: nat)
    requires len >= 2
    ensures r <= len - 2
    ensures r == (current + number) % (len - 1)
  {
    var a := current + number;
    var b := len - 1;
    var m := TruncRem(a, b);
    if m < 0 then
      DivModUnique(a, b, TruncDiv(a, b) - 1, b + m);
      b + m
    else
      DivModUnique(a, b, TruncDiv(a, b), m);
      m
  }

  /** The list after `move_element(element)`: the first element carrying
      `element`'s id is taken out and re-inserted at its new index. */
  function Moved(elems: seq<Elem>, element: Elem): seq<Elem>
    requires |elems| >= 2 && element.1 in Ids(elems)
  {
    var ci := FirstIdIndex(elems, element.1);
    InsertAt(RemoveAt(elems, ci), NewIndex(ci, element.0, |elems|), elems[ci])
  }

  /** Moving keeps the length and the multiset of (number, id) pairs, so no
      element is lost or duplicated. */
  lemma MovedIsPermutation(elems: seq<Elem>, element: Elem)
    requires |elems| >= 2 && element.1 in Ids(elems)
    ensures |Moved(elems, element)| == |elems|
    ensures multiset(Moved(elems, element)) == multiset(elems)
    ensures Ids(Moved(elems, element)) == Ids(elems)
    ensures Values(Moved(elems, element)) == Values(elems)
  {
    var ci := FirstIdIndex(elems, element.1);
    RemoveInsertMultiset(elems, ci, NewIndex(ci, element.0, |elems|));
    SameMultisetSameIds(Moved(elems, element), elems);
  }

  /** The moved element sits at the new index, and taking it out again
      leaves the other elements in their old relative order. */
  lemma MovedKeepsOrder(elems: seq<Elem>, element: Elem)
    requires |elems| >= 2 && element.1 in Ids(elems)
    ensures var ci := FirstIdIndex(elems, element.1);
            var ni := NewIndex(ci, element.0, |elems|);
            Moved(elems, element)[ni] == elems[ci] &&
            RemoveAt(Moved(elems, element), ni) == RemoveAt(elems, ci)
  {
    var ci := FirstIdIndex(elems, element.1);
    RemoveInserted(RemoveAt(elems, ci), NewIndex(ci, element.0, |elems|), elems[ci]);
  }

  /** Every element of `order` carries an id present in `elems`. */
  ghost predicate IdsIn(order: seq<Elem>, elems: seq<Elem>) {
    Ids(order) <= Ids(elems)
  }

  lemma IdsInSame(order: seq<Elem>, elems: seq<Elem>, elems': seq<Elem>)
    requires IdsIn(order, elems) && Ids(elems') == Ids(elems)
    ensures IdsIn(order, elems')
  {
  }

  lemma IdsInSelf(elems: seq<Elem>)
    ensures IdsIn(elems, elems)
  {
  }

  /** The state after moving the first `count` elements of `order`, in
      order, once each. */
  function MixFirst(elems: seq<Elem>, order: seq<Elem>, count: nat): (r: seq<Elem>)
    requires |elems| >= 2 && IdsIn(order, elems) && count <= |order|
    ensures multiset(r) == multiset(elems) && |r| == |elems|
    ensures Ids(r) == Ids(elems) && Values(r) == Values(elems)
  {
    if count == 0 then elems
    else
      var before := MixFirst(elems, order, count - 1);
      var e := order[count - 1];
      assert e in order;
      MovedIsPermutation(before, e);
      Moved(before, e)
  }

  /** The state after `rounds` full rounds of mixing in the order `order`. */
  function Mix(elems: seq<Elem>, order: seq<Elem>, rounds: nat): (r: seq<Elem>)
    requires |elems| >= 2 && IdsIn(order, elems)
    ensures multiset(r) == multiset(elems) && |r| == |elems|
    ensures Ids(r) == Ids(elems) && Values(r) == Values(elems)
  {
    if rounds == 0 then elems
    else
      var before := Mix(elems, order, rounds - 1);
      IdsInSame(order, elems, before);
      MixFirst(before, order, |order|)
  }

  /** The list read circularly starting at its first 0. */
  function FromZero(elems: seq<Elem>): (r: seq<Elem>)
    requires 0 in Values(elems)
    ensures |r| == |elems| && r[0].0 == 0
  {
    var z := ZeroIndex(elems);
    elems[z..] + elems[..z]
  }

  /** Reading a sequence rotated to start at `z`, `offset` places in, is
      indexing the sequence at `(offset + z) % |s|`. */
  lemma RotatedAt<T>(s: seq<T>, z: nat, offset: nat)
    requires z < |s|
    ensures (s[z..] + s[..z])[offset % |s|] == s[(offset + z) % |s|]
  {
    var x := offset % |s|;
    var k := (offset + z) % |s|;
    ShiftedRemainder(offset, z, |s|, x, k);
    if x < |s| - z {
      assert (s[z..] + s[..z])[x] == s[z..][x];
    } else {
      assert (s[z..] + s[..z])[x] == s[..z][x - (|s| - z)];
    }
  }

  /** The remainder `k` of `offset + z` from the remainder `x` of `offset`. */
  lemma ShiftedRemainder(offset: nat, z: nat, n: nat, x: nat, k: nat)
    requires z < n && x == offset % n && k == (offset + z) % n
    ensures x < n - z ==> k == x + z
    ensures x >= n - z ==> k == x + z - n
  {
    var c := offset / n;
    DivMod(offset, n);
    ModShift(c, x + z, n);
    if x < n - z {
      DivModUnique(x + z, n, 0, x + z);
    } else {
      DivModUnique(x + z, n, 1, x + z - n);
    }
  }

  lemma DivMod(a: nat, n: nat)
    requires n > 0
    ensures a == (a / n) * n + a % n
  {
  }

  /** Adding whole multiples of `n` does not change a remainder. */
  lemma ModShift(k: nat, x: nat, n: nat)
    requires n > 0
    ensures (k * n + x) % n == x % n
  {
    DivModUnique(k * n + x, n, k + x / n, x % n);
  }

  // ----------------------------------------------------------------- state

  /** `CircularList`: the elements in their current order, and the number of
      elements, fixed when the list is collected. */
  class CircularList {
    var elems: seq<Elem>
    var size: nat

    ghost predicate Valid()
      reads this
    {
      size == |elems|
    }

    /** `FromIterator::from_iter`. */
    constructor (es: seq<Elem>)
      ensures Valid() && elems == es
    {
      elems := es;
      size := |es|;
    }

    /** `move_element`: it panics unless the list has at least two elements
        and holds the element's id. */
    method MoveElement(element: Elem)
      requires Valid() && size >= 2 && element.1 in Ids(elems)
      modifies this
      ensures Valid() && size == old(size)
      ensures elems == Moved(old(elems), element)
    {
      var len := size;
      var current := Position(elems, element.1);
      var newIndex := TruncRem(current + element.0, len - 1);
      if newIndex < 0 {
        newIndex := (len - 1) + newIndex;
      }
      assert newIndex == NewIndex(current, element.0, len);
      var e := elems[current];
      elems := InsertAt(RemoveAt(elems, current), newIndex, e);
    }

    /** `get_element_from_zero`: the number `offset` places after the first
        0, going round the circle. The index arithmetic is on `u32`; it
        panics on overflow and when there is no 0. */
    function GetElementFromZero(offset: nat): (r: int)
      reads this
      requires Valid() && 0 in Values(elems) && size < U32Limit
      requires offset + ZeroIndex(elems) < U32Limit
      ensures r == FromZero(elems)[offset % size].0
    {
      RotatedAt(elems, ZeroIndex(elems), offset);
      elems[(offset + ZeroIndex(elems)) % size].0
    }
  }

  /** `Iterator::position` over the ids: a scan from the front. */
  method Position(elems: seq<Elem>, id: nat) returns (i: nat)
    requires id in Ids(elems)
    ensures i == FirstIdIndex(elems, id)
  {
    i := 0;
    while elems[i].1 != id
      invariant i <= FirstIdIndex(elems, id)
      decreases FirstIdIndex(elems, id) - i
    {
      i := i + 1;
    }
  }

  // ---------------------------------------------------------------- driver

  /** The numbers of the input, one per line, each multiplied by the
      decryption key, paired with their line index; None when a line is not
      an `i64` or a product overflows. */
  function Decrypted(lines: seq<string>): (r: Option<seq<Elem>>)
    ensures r.Some? ==> |r.value| == |lines|
    ensures r.Some? ==> forall i | 0 <= i < |lines| :: r.value[i].1 == i
  {
    if lines == [] then Some([])
    else
      match Decrypted(lines[..|lines| - 1])
      case None => None
      case Some(prefix) =>
        match ParseInt(lines[|lines| - 1], I64Min, I64Max)
        case None => None
        case Some(n) =>
          if I64Min <= n * DecryptionKey <= I64Max then
            Some(prefix + [(n * DecryptionKey, |lines| - 1)])
          else None
  }

  /** The three grove coordinates of a mixed list and their sum. */
  datatype Coordinates = Coordinates(n1: int, n2: int, n3: int, sum: int)

  /** The coordinates of the decrypted file: the numbers 1000, 2000 and
      3000 places after the 0 once the file has been mixed ten times. */
  function GroveCoordinates(original: seq<Elem>): (c: Coordinates)
    requires |original| >= 2 && 0 in Values(original)
  {
    IdsInSelf(original);
    var mixed := FromZero(Mix(original, original, 10));
    var n := |mixed|;
    var n1 := mixed[1000 % n].0;
    var n2 := mixed[2000 % n].0;
    var n3 := mixed[3000 % n].0;
    Coordinates(n1, n2, n3, n1 + n2 + n3)
  }

  /** `run`: decrypt, mix ten rounds in the original order, read the
      coordinates. None stands for a panic: a bad line, an overflowing
      product, fewer than two numbers (the `%` by `len - 1`) or no 0. */
  method Run(input: string) returns (r: Option<Coordinates>)
    requires |Lines(input)| + 3000 < U32Limit
    ensures r.None? <==> (Decrypted(Lines(input)).None? || |Lines(input)| < 2 ||
                          0 !in Values(Decrypted(Lines(input)).value))
    ensures r.Some? ==> r.value == GroveCoordinates(Decrypted(Lines(input)).value)
  {
    var parsed := Decrypted(Lines(input));
    if parsed.None? || |parsed.value| < 2 || 0 !in Values(parsed.value) {
      return None;
    }
    var original := parsed.value;
    IdsInSelf(original);
    var numbers := new CircularList(original);
    MixRounds(numbers, original, 10);
    var c := ReadCoordinates(numbers, original);
    return Some(c);
  }

  /** The end of `run`: the elements 1000, 2000 and 3000 places after 0 in
      the mixed list, and their sum. */
  method ReadCoordinates(numbers: CircularList, original: seq<Elem>) returns (c: Coordinates)
    requires |original| >= 2 && 0 in Values(original) && |original| + 3000 < U32Limit
    requires numbers.Valid() && IdsIn(original, original) && numbers.elems == Mix(original, original, 10)
    ensures c == GroveCoordinates(original)
  {
    var mixed := Mix(original, original, 10);
    assert ZeroIndex(mixed) < |original|;
    var n1 := numbers.GetElementFromZero(1000);
    var n2 := numbers.GetElementFromZero(2000);
    var n3 := numbers.GetElementFromZero(3000);
    c := Coordinates(n1, n2, n3, n1 + n2 + n3);
  }

  /** The outer loop of `run`: `rounds` rounds of mixing. */
  method MixRounds(numbers: CircularList, original: seq<Elem>, rounds: nat)
    requires numbers.Valid() && numbers.elems == original
    requires |original| >= 2 && IdsIn(original, original)
    modifies numbers
    ensures numbers.Valid() && numbers.elems == Mix(original, original, rounds)
  {
    for round := 0 to rounds
      invariant numbers.Valid() && numbers.elems == Mix(original, original, round)
    {
      MixStep(numbers, original, round);
    }
  }

  method MixStep(numbers: CircularList, original: seq<Elem>, round: nat)
    requires |original| >= 2 && IdsIn(original, original)
    requires numbers.Valid() && numbers.elems == Mix(original, original, round)
    modifies numbers
    ensures numbers.Valid() && numbers.elems == Mix(original, original, round + 1)
  {
    ghost var before := Mix(original, original, round);
    IdsInSame(original, original, before);
    MixOneRound(numbers, original, before);
  }

  /** The inner loop of `run`: move every element of `original`, in order. */
  method MixOneRound(numbers: CircularList, original: seq<Elem>, ghost start: seq<Elem>)
    requires numbers.Valid() && numbers.elems == start
    requires |start| >= 2 && IdsIn(original, start)
    modifies numbers
    ensures numbers.Valid() && numbers.elems == MixFirst(start, original, |original|)
  {
    var j := 0;
    while j < |original|
      invariant 0 <= j <= |original|
      invariant numbers.Valid() && numbers.elems == MixFirst(start, original, j)
    {
      MixFirstStep(start, original, j);
      numbers.MoveElement(original[j]);
      j := j + 1;
    }
  }

  /** One more mixing step moves the next element of `order`. */
  lemma MixFirstStep(start: seq<Elem>, order: seq<Elem>, count: nat)
    requires |start| >= 2 && IdsIn(order, start) && count < |order|
    ensures order[count].1 in Ids(MixFirst(start, order, count))
    ensures MixFirst(start, order, count + 1) == Moved(MixFirst(start, order, count), order[count])
  {
    assert order[count] in order;
  }
}
