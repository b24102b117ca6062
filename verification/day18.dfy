/** Day 18, "Boiling Boulders": lava droplets are unit cubes on an integer
    grid; the surface area is the number of cube faces that do not touch
    another cube. */
module Day18Cubes {
  import opened Text

  const I32Min: int := -0x8000_0000
  const I32Max: int := 0x7FFF_FFFF

  datatype Cube = Cube(x: int, y: int, z: int)

  predicate InI32(c: Cube) {
    I32Min <= c.x <= I32Max && I32Min <= c.y <= I32Max && I32Min <= c.z <= I32Max
  }

  /** Two cubes share a face: they differ by one along exactly one axis. */
  predicate Touches(a: Cube, b: Cube) {
    Abs(a.x - b.x) + Abs(a.y - b.y) + Abs(a.z - b.z) == 1
  }

  // ---------------------------------------------------------------- parsing

  function Format(c: Cube): string {
    IntToString(c.x) + "," + IntToString(c.y) + "," + IntToString(c.z)
  }

  /** `Cube::from_string`: every comma-separated part is parsed as an
      `i32`, and the first three are the coordinates. A part that does not
      parse, or fewer than three parts, panics; both give `None`. */
  function FromString(s: string): (r: Option<Cube>)
    ensures r.Some? ==> InI32(r.value)
    ensures r.Some? ==> |Split(s, ',')| >= 3 &&
                        ParseInt(Split(s, ',')[0], I32Min, I32Max) == Some(r.value.x) &&
                        ParseInt(Split(s, ',')[1], I32Min, I32Max) == Some(r.value.y) &&
                        ParseInt(Split(s, ',')[2], I32Min, I32Max) == Some(r.value.z)
    ensures (exists i | 0 <= i < |Split(s, ',')| :: ParseInt(Split(s, ',')[i], I32Min, I32Max).None?) ==> r.None?
  {
    match ParseInts(Split(s, ','), I32Min, I32Max)
    case None => None
    case Some(values) =>
      if |values| < 3 then None else Some(Cube(values[0], values[1], values[2]))
  }

  lemma NoCommaInInt(v: int)
    ensures ',' !in IntToString(v)
  {
    IntToStringChars(v);
  }

  /** Writing a cube as "x,y,z" and parsing it gives the cube back. */
  lemma FromStringFormat(c: Cube)
    requires InI32(c)
    ensures FromString(Format(c)) == Some(c)
  {
    var a, b, d := IntToString(c.x), IntToString(c.y), IntToString(c.z);
    NoCommaInInt(c.x);
    NoCommaInInt(c.y);
    NoCommaInInt(c.z);
    assert Format(c) == a + [','] + (b + [','] + d);
    SplitAt(a, ',', b + [','] + d);
    SplitAt(b, ',', d);
    assert Split(d, ',') == [d];
    assert Split(Format(c), ',') == [a, b, d];
    ParseIntToString(c.x, I32Min, I32Max);
    ParseIntToString(c.y, I32Min, I32Max);
    ParseIntToString(c.z, I32Min, I32Max);
    FromStringOfParts(Format(c), c);
  }

  lemma FromStringOfParts(s: string, c: Cube)
    requires |Split(s, ',')| == 3
    requires ParseInt(Split(s, ',')[0], I32Min, I32Max) == Some(c.x)
    requires ParseInt(Split(s, ',')[1], I32Min, I32Max) == Some(c.y)
    requires ParseInt(Split(s, ',')[2], I32Min, I32Max) == Some(c.z)
    ensures FromString(s) == Some(c)
  {
    var parts := Split(s, ',');
    forall i | 0 <= i < 3
      ensures ParseInt(parts[i], I32Min, I32Max).Some?
    {
      assert i == 0 || i == 1 || i == 2;
    }
    var values := ParseInts(parts, I32Min, I32Max).value;
    assert values[0] == c.x && values[1] == c.y && values[2] == c.z;
  }

  // ---------------------------------------------------------------- exposed sides

  /** The six cubes one step away along an axis. */
  function Neighbours(c: Cube): set<Cube> {
    {Cube(c.x + 1, c.y, c.z), Cube(c.x - 1, c.y, c.z),
     Cube(c.x, c.y + 1, c.z), Cube(c.x, c.y - 1, c.z),
     Cube(c.x, c.y, c.z + 1), Cube(c.x, c.y, c.z - 1)}
  }

  /** The neighbour set is exactly the cubes sharing a face with `c`, and
      there are six of them. */
  lemma NeighboursTouch(c: Cube)
    ensures forall d :: d in Neighbours(c) <==> Touches(c, d)
    ensures |Neighbours(c)| == 6
  {
    forall d | Touches(c, d) ensures d in Neighbours(c) {
      TouchingIsNeighbour(c, d);
    }
    NeighboursCard(c);
  }

  lemma TouchingIsNeighbour(c: Cube, d: Cube)
    requires Touches(c, d)
    ensures d in Neighbours(c)
  {
    var dx, dy, dz := d.x - c.x, d.y - c.y, d.z - c.z;
    if dx != 0 {
      assert dy == 0 && dz == 0;
      assert d == Cube(c.x + dx, c.y, c.z);
    } else if dy != 0 {
      assert dz == 0;
      assert d == Cube(c.x, c.y + dy, c.z);
    } else {
      assert d == Cube(c.x, c.y, c.z + dz);
    }
  }

  lemma NeighboursCard(c: Cube)
    ensures |Neighbours(c)| == 6
  {
    var s1 := {Cube(c.x + 1, c.y, c.z)};
    var s2 := s1 + {Cube(c.x - 1, c.y, c.z)};
    var s3 := s2 + {Cube(c.x, c.y + 1, c.z)};
    var s4 := s3 + {Cube(c.x, c.y - 1, c.z)};
    var s5 := s4 + {Cube(c.x, c.y, c.z + 1)};
    var s6 := s5 + {Cube(c.x, c.y, c.z - 1)};
    assert |s2| == 2;
    assert |s3| == 3;
    assert |s4| == 4;
    assert |s5| == 5;
    assert |s6| == 6;
    assert s6 == Neighbours(c);
  }

  /** `exposed_sides`: six minus the neighbours present among `others`. */
  function ExposedSides(c: Cube, others: set<Cube>): (r: int)
    ensures 0 <= r <= 6
  {
    NeighboursTouch(c);
    SubsetCard(Neighbours(c) * others, Neighbours(c));
    6 - |Neighbours(c) * others|
  }

  /** The cubes among `others` that share a face with `c`. */
  function TouchingIn(c: Cube, others: set<Cube>): set<Cube> {
    set d | d in others && Touches(c, d)
  }

  /** An independent reading of `exposed_sides`: six minus the number of
      cubes that share a face with `c`. */
  lemma ExposedSidesCountsTouching(c: Cube, others: set<Cube>)
    ensures ExposedSides(c, others) == 6 - |TouchingIn(c, others)|
  {
    NeighboursTouch(c);
    assert Neighbours(c) * others == TouchingIn(c, others);
  }

  /** More cubes never expose more sides. */
  lemma ExposedSidesMonotone(c: Cube, others: set<Cube>, more: set<Cube>)
    requires others <= more
    ensures ExposedSides(c, more) <= ExposedSides(c, others)
  {
    SubsetCard(Neighbours(c) * others, Neighbours(c) * more);
  }

  /** A cube alone shows all six sides; one face-neighbour hides one and two
      hide two. */
  lemma ExposedSidesExamples(c: Cube, d: Cube, e: Cube)
    requires Touches(c, d) && Touches(c, e) && d != e
    ensures ExposedSides(c, {}) == 6
    ensures ExposedSides(c, {d}) == 5
    ensures ExposedSides(c, {d, e}) == 4
  {
    ExposedSidesCountsTouching(c, {});
    ExposedSidesCountsTouching(c, {d});
    ExposedSidesCountsTouching(c, {d, e});
    assert TouchingIn(c, {}) == {};
    assert TouchingIn(c, {d}) == {d};
    assert TouchingIn(c, {d, e}) == {d, e};
  }

  // ---------------------------------------------------------------- the droplet

  /** The sum in `run`: each cube of `cubes` counts its sides exposed to the
      rest of `all`, the cubes taken in no particular order, as a hash set
      yields them. */
  ghost function Total(cubes: set<Cube>, all: set<Cube>): (r: int)
    ensures 0 <= r <= 6 * |cubes|
    decreases cubes
  {
    if cubes == {} then 0
    else
      var c :| c in cubes;
      ExposedSides(c, all - {c}) + Total(cubes - {c}, all)
  }

  /** Cubes that touch no other cube show all their sides. */
  lemma {:induction false} TotalOfIsolated(cubes: set<Cube>, all: set<Cube>)
    requires cubes <= all
    requires forall a, b | a in all && b in all :: !Touches(a, b)
    ensures Total(cubes, all) == 6 * |cubes|
    decreases cubes
  {
    if cubes != {} {
      var c :| c in cubes && Total(cubes, all) == ExposedSides(c, all - {c}) + Total(cubes - {c}, all);
      ExposedSidesCountsTouching(c, all - {c});
      assert TouchingIn(c, all - {c}) == {};
      TotalOfIsolated(cubes - {c}, all);
    }
  }

  /** `run` before the sum: the trimmed input's lines, each a cube. */
  function ParseCubes(input: string): (r: Option<set<Cube>>)
    ensures r.Some? ==> forall c | c in r.value :: InI32(c)
  {
    var lines := Lines(Trim(input));
    match AllSome(seq(|lines|, i requires 0 <= i < |lines| => FromString(lines[i])))
    case None => None
    case Some(cubes) => Some(set i | 0 <= i < |cubes| :: cubes[i])
  }
}
