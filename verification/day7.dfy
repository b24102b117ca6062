/** Day 7, "No Space Left On Device": a terminal session of `cd` and `ls`
    is replayed into a directory tree, whose sizes then answer two
    questions: the total of the small directories, and the smallest
    directory whose deletion frees enough space. */
module Day7Filesystem {
  import opened Text

  const AvailableSpace: nat := 70000000
  const MinFreeSpace: nat := 30000000
  /** Directories of at most this size count in `calc_size`. */
  const SmallLimit: nat := 100000
  /** `u64::MAX`, the "none found" answer of the search for a directory to delete. */
  const U64Max: nat := 0xFFFF_FFFF_FFFF_FFFF

  datatype NodeValue = File(name: string, size: nat) | Dir(name: string)

  /** A node of the tree; as in the source, a file node has a (normally
      empty) table of children too, which its size ignores. */
  datatype Node = Node(value: NodeValue, children: seq<Child>)

  /** An entry of a children table: the name it is stored under. */
  datatype Child = Child(name: string, node: Node)

  /** `Node::new`: an empty directory. */
  function NewDir(name: string): Node {
    Node(Dir(name), [])
  }

  // ---------------------------------------------------------------- children tables

  /** No two entries of a table share a name, as the keys of a map. */
  predicate UniqueNames(cs: seq<Child>) {
    forall i, j | 0 <= i < j < |cs| :: cs[i].name != cs[j].name
  }

  /** The position of the entry called `name`. */
  function IndexOfName(cs: seq<Child>, name: string): (r: Option<nat>)
    ensures r.Some? ==> r.value < |cs| && cs[r.value].name == name
    ensures r.None? <==> forall i | 0 <= i < |cs| :: cs[i].name != name
  {
    if cs == [] then None
    else if cs[|cs| - 1].name == name then Some(|cs| - 1)
    else IndexOfName(cs[..|cs| - 1], name)
  }

  /** `children[&name]`: the node stored under `name`, if any. */
  function Find(cs: seq<Child>, name: string): Option<Node> {
    match IndexOfName(cs, name)
    case None => None
    case Some(i) => Some(cs[i].node)
  }

  /** With unique names, the node found is the one of the only entry
      with that name. */
  lemma FindUnique(cs: seq<Child>, name: string, i: nat)
    requires UniqueNames(cs) && i < |cs| && cs[i].name == name
    ensures Find(cs, name) == Some(cs[i].node)
  {
  }

  /** `append_node`: store `node` under `name`, replacing an earlier entry
      of that name. */
  function Insert(cs: seq<Child>, name: string, node: Node): (r: seq<Child>)
    ensures UniqueNames(cs) ==> UniqueNames(r)
    ensures Find(r, name) == Some(node)
    ensures forall other | other != name :: Find(r, other) == Find(cs, other)
  {
    match IndexOfName(cs, name)
    case Some(i) =>
      var r := cs[i := Child(name, node)];
      SameNamesSameIndex(r, cs, name);
      assert forall other | other != name :: IndexOfName(r, other) == IndexOfName(cs, other) by {
        forall other | other != name ensures IndexOfName(r, other) == IndexOfName(cs, other) {
          SameNamesSameIndex(r, cs, other);
        }
      }
      r
    case None =>
      var r := cs + [Child(name, node)];
      assert r[..|r| - 1] == cs;
      assert forall other | other != name :: IndexOfName(r, other) == IndexOfName(cs, other) by {
        forall other | other != name ensures IndexOfName(r, other) == IndexOfName(cs, other) {
          assert r[..|r| - 1] == cs;
        }
      }
      r
  }

  /** Tables with the same names in the same places look up to the same
      positions. */
  lemma {:induction false} SameNamesSameIndex(a: seq<Child>, b: seq<Child>, name: string)
    requires |a| == |b| && forall i | 0 <= i < |a| :: a[i].name == b[i].name
    ensures IndexOfName(a, name) == IndexOfName(b, name)
  {
    if a != [] {
      SameNamesSameIndex(a[..|a| - 1], b[..|b| - 1], name);
    }
  }

  // ---------------------------------------------------------------- sizes

  /** A file's size is its own; a directory's is the sum over its children. */
  function TotalSize(n: Node): nat
    decreases n, 1
  {
    match n.value
    case File(_, size) => size
    case Dir(_) => SumSizes(n.children)
  }

  function SumSizes(cs: seq<Child>): nat
    decreases cs, 0
  {
    if cs == [] then 0 else SumSizes(cs[..|cs| - 1]) + TotalSize(cs[|cs| - 1].node)
  }

  /** `Node::size`: the loop over the children, recursing into each. */
  method Size(n: Node) returns (size: nat)
    ensures size == TotalSize(n)
    decreases n
  {
    match n.value {
      case File(_, s) =>
        return s;
      case Dir(_) =>
        size := 0;
        for i := 0 to |n.children|
          invariant size == SumSizes(n.children[..i])
        {
          var child := Size(n.children[i].node);
          assert n.children[..i + 1][..i] == n.children[..i];
          size := size + child;
        }
        assert n.children[..|n.children|] == n.children;
    }
  }

  /** The sizes of every directory in the tree, `n` first if it is one,
      reached through directories only (as both searches recurse). */
  function DirSizes(n: Node): seq<nat>
    decreases n, 1
  {
    if n.value.File? then [] else [TotalSize(n)] + DirSizesOf(n.children)
  }

  function DirSizesOf(cs: seq<Child>): seq<nat>
    decreases cs, 0
  {
    if cs == [] then [] else DirSizesOf(cs[..|cs| - 1]) + DirSizes(cs[|cs| - 1].node)
  }

  /** No directory in a tree is larger than the tree. */
  lemma {:induction false} DirSizesBounded(n: Node)
    ensures forall x | x in DirSizes(n) :: x <= TotalSize(n)
    decreases n, 1
  {
    if n.value.Dir? {
      DirSizesOfBounded(n.children);
    }
  }

  lemma {:induction false} DirSizesOfBounded(cs: seq<Child>)
    ensures forall x | x in DirSizesOf(cs) :: x <= SumSizes(cs)
    decreases cs, 0
  {
    if cs != [] {
      DirSizesOfBounded(cs[..|cs| - 1]);
      DirSizesBounded(cs[|cs| - 1].node);
    }
  }

  // ---------------------------------------------------------------- calc_size

  /** What `calc_size` returns: the node's own size if it is small, plus the
      same for every child directory. */
  function SmallTotal(n: Node): nat
    decreases n, 1
  {
    (if TotalSize(n) <= SmallLimit then TotalSize(n) else 0) + SmallTotalOf(n.children)
  }

  function SmallTotalOf(cs: seq<Child>): nat
    decreases cs, 0
  {
    if cs == [] then 0
    else SmallTotalOf(cs[..|cs| - 1]) + if cs[|cs| - 1].node.value.File? then 0 else SmallTotal(cs[|cs| - 1].node)
  }

  /** The sum of the sizes of at most `SmallLimit`. */
  function SumSmall(xs: seq<nat>): nat {
    if xs == [] then 0 else SumSmall(xs[..|xs| - 1]) + if xs[|xs| - 1] <= SmallLimit then xs[|xs| - 1] else 0
  }

  lemma {:induction false} SumSmallAppend(a: seq<nat>, b: seq<nat>)
    ensures SumSmall(a + b) == SumSmall(a) + SumSmall(b)
    decreases |b|
  {
    if b != [] {
      assert (a + b)[..|a + b| - 1] == a + b[..|b| - 1];
      SumSmallAppend(a, b[..|b| - 1]);
    } else {
      assert a + b == a;
    }
  }

  /** For a directory, `calc_size` is the total of all directories of at
      most 100000 in its tree. */
  lemma {:induction false} SmallTotalCounts(n: Node)
    requires n.value.Dir?
    ensures SmallTotal(n) == SumSmall(DirSizes(n))
    decreases n, 1
  {
    SmallTotalOfCounts(n.children);
    SumSmallAppend([TotalSize(n)], DirSizesOf(n.children));
    assert [TotalSize(n)][..0] == [];
  }

  lemma {:induction false} SmallTotalOfCounts(cs: seq<Child>)
    ensures SmallTotalOf(cs) == SumSmall(DirSizesOf(cs))
    decreases cs, 0
  {
    if cs != [] {
      var last := cs[|cs| - 1].node;
      SmallTotalOfCounts(cs[..|cs| - 1]);
      SumSmallAppend(DirSizesOf(cs[..|cs| - 1]), DirSizes(last));
      if last.value.Dir? {
        SmallTotalCounts(last);
      }
    }
  }

  /** `calc_size`: the loop over the children, skipping files. */
  method CalcSize(n: Node) returns (total: nat)
    ensures total == SmallTotal(n)
    decreases n
  {
    total := 0;
    var size := Size(n);
    if size <= SmallLimit {
      total := total + size;
    }
    for i := 0 to |n.children|
      invariant total == (if size <= SmallLimit then size else 0) + SmallTotalOf(n.children[..i])
    {
      assert n.children[..i + 1][..i] == n.children[..i];
      var child := n.children[i].node;
      if child.value.File? {
        continue;
      }
      var small := CalcSize(child);
      total := total + small;
    }
    assert n.children[..|n.children|] == n.children;
  }

  // ---------------------------------------------------------------- the directory to delete

  /** `viable_size`: deleting `size` leaves at least 30000000 free. */
  predicate Viable(totalSize: nat, size: nat)
    requires totalSize <= AvailableSpace
  {
    AvailableSpace - totalSize + size >= MinFreeSpace
  }

  lemma ViableMonotone(totalSize: nat, small: nat, large: nat)
    requires totalSize <= AvailableSpace && small <= large
    ensures Viable(totalSize, small) ==> Viable(totalSize, large)
  {
  }

  /** What `find_size_of_smallest_dir_to_delete` returns. As written, a
      child's answer is taken only when the node itself is viable. */
  function Smallest(totalSize: nat, n: Node): nat
    requires totalSize <= AvailableSpace
    decreases n, 1
  {
    var size := TotalSize(n);
    SmallestOf(totalSize, size, n.children, if Viable(totalSize, size) && size < U64Max then size else U64Max)
  }

  /** The loop over the children, from the answer `init` for the node alone. */
  function SmallestOf(totalSize: nat, size: nat, cs: seq<Child>, init: nat): nat
    requires totalSize <= AvailableSpace
    decreases cs, 0
  {
    if cs == [] then init
    else
      var before := SmallestOf(totalSize, size, cs[..|cs| - 1], init);
      var child := cs[|cs| - 1].node;
      if child.value.File? then before
      else
        var childSize := Smallest(totalSize, child);
        if Viable(totalSize, size) && childSize < before then childSize else before
  }

  /** `find_size_of_smallest_dir_to_delete`. */
  method FindSmallest(totalSize: nat, n: Node) returns (smallest: nat)
    requires totalSize <= AvailableSpace
    ensures smallest == Smallest(totalSize, n)
    decreases n
  {
    smallest := U64Max;
    var size := Size(n);
    if Viable(totalSize, size) && size < smallest {
      smallest := size;
    }
    ghost var init := smallest;
    for i := 0 to |n.children|
      invariant smallest == SmallestOf(totalSize, size, n.children[..i], init)
    {
      assert n.children[..i + 1][..i] == n.children[..i];
      var child := n.children[i].node;
      if child.value.File? {
        continue;
      }
      var childSize := FindSmallest(totalSize, child);
      if Viable(totalSize, size) && childSize < smallest {
        smallest := childSize;
      }
    }
    assert n.children[..|n.children|] == n.children;
  }

  /** For a directory, the answer is the smallest viable directory size in
      its tree, or `u64::MAX` when no directory is viable: the check of the
      node's own viability before taking a child's answer never matters,
      since no directory inside is larger than the node. */
  lemma {:induction false} SmallestIsMinViable(totalSize: nat, n: Node)
    requires totalSize <= AvailableSpace && n.value.Dir?
    ensures Smallest(totalSize, n) <= U64Max
    ensures forall x | x in DirSizes(n) && Viable(totalSize, x) :: Smallest(totalSize, n) <= x
    ensures Smallest(totalSize, n) == U64Max
            || (Smallest(totalSize, n) in DirSizes(n) && Viable(totalSize, Smallest(totalSize, n)))
    decreases n, 1
  {
    var size := TotalSize(n);
    var init := if Viable(totalSize, size) && size < U64Max then size else U64Max;
    DirSizesOfBounded(n.children);
    forall x | x in DirSizesOf(n.children) && Viable(totalSize, x) ensures Viable(totalSize, size) {
      ViableMonotone(totalSize, x, size);
    }
    SmallestOfIsMin(totalSize, size, n.children, init);
  }

  lemma {:induction false} SmallestOfIsMin(totalSize: nat, size: nat, cs: seq<Child>, init: nat)
    requires totalSize <= AvailableSpace && init <= U64Max
    requires init == U64Max || Viable(totalSize, init)
    requires forall x | x in DirSizesOf(cs) && Viable(totalSize, x) :: Viable(totalSize, size)
    ensures var r := SmallestOf(totalSize, size, cs, init);
            && r <= init
            && (forall x | x in DirSizesOf(cs) && Viable(totalSize, x) :: r <= x)
            && (r == init || (r in DirSizesOf(cs) && Viable(totalSize, r)))
    decreases cs, 0
  {
    if cs != [] {
      var front, child := cs[..|cs| - 1], cs[|cs| - 1].node;
      assert DirSizesOf(cs) == DirSizesOf(front) + DirSizes(child);
      SmallestOfIsMin(totalSize, size, front, init);
      if child.value.Dir? {
        SmallestIsMinViable(totalSize, child);
      }
    }
  }

  // ---------------------------------------------------------------- the terminal session

  datatype Command = Cd(dir: string) | Ls

  /** A line of the session: a command, a listed file, a listed directory. */
  datatype Line = CommandLine(command: Command) | FileWithSize(name: string, size: nat) | DirListing(name: string)

  /** The command after "$": `cd` with its trimmed argument, or `ls`. */
  function ParseCommand(command: string): (r: Option<Line>)
    ensures r.Some? ==> r.value.CommandLine?
    ensures r.Some? <==> StartsWith(command, "cd") || command == "ls"
  {
    if StartsWith(command, "cd") then Some(CommandLine(Cd(Trim(command[2..]))))
    else if command == "ls" then Some(CommandLine(Ls))
    else None
  }

  /** A line starting with "$ " is the command after those two bytes. */
  lemma DollarLine(rest: string)
    ensures ParseLine("$ " + rest) == ParseCommand(Trim(rest))
  {
    var line := "$ " + rest;
    assert StartsWith(line, "$") by {
      assert line[..1] == "$";
    }
    assert CharsInBytes(line, 2) == Some(2) by {
      CharsInBytesOfPrefix("$ ", rest);
    }
    assert line[2..] == rest;
  }

  /** `parse_line`; None where the source panics. The slices `line[2..]`
      and `line[4..]` are taken at byte offsets, so they panic when the
      offset lies inside a character; `command[2..]` follows "cd", whose
      two bytes are two characters. */
  function ParseLine(line: string): (r: Option<Line>)
    ensures r.Some? ==> (r.value.CommandLine? <==> StartsWith(line, "$"))
    ensures r.Some? && r.value.DirListing? ==> StartsWith(line, "dir")
    ensures r.Some? && r.value.FileWithSize? ==> r.value.size <= U64Max && r.value.name != []
  {
    if StartsWith(line, "$") then
      match CharsInBytes(line, 2)
      case None => None
      case Some(k) => ParseCommand(Trim(line[k..]))
    else if StartsWith(line, "dir") then
      match CharsInBytes(line, 4)
      case None => None
      case Some(k) => Some(DirListing(Trim(line[k..])))
    else
      var parts := Words(line);
      if |parts| < 2 then None
      else
        match ParseNat(parts[0], U64Max)
        case None => None
        case Some(size) => Some(FileWithSize(parts[1], size))
  }

  /** `parse_line` panics on a line starting with "$" or "dir" whose byte
      2, or byte 4, lies inside a character. */
  lemma ParseLineInsideChar(line: string)
    ensures StartsWith(line, "$") && CharsInBytes(line, 2).None? ==> ParseLine(line).None?
    ensures !StartsWith(line, "$") && StartsWith(line, "dir") && CharsInBytes(line, 4).None? ==> ParseLine(line).None?
  {
  }

  /** After "$" and "dir", an ASCII character makes the byte offset of the
      slice its character offset. */
  lemma SliceOffsetsAscii(line: string)
    ensures StartsWith(line, "$") && 2 <= |line| && line[1] as int < 0x80 ==> CharsInBytes(line, 2) == Some(2)
    ensures StartsWith(line, "dir") && 4 <= |line| && line[3] as int < 0x80 ==> CharsInBytes(line, 4) == Some(4)
  {
    if StartsWith(line, "$") && 2 <= |line| && line[1] as int < 0x80 {
      AsciiBytes(line, 2);
    }
    if StartsWith(line, "dir") && 4 <= |line| && line[3] as int < 0x80 {
      AsciiBytes(line, 4);
    }
  }

  /** The first n characters of a line, all ASCII, are its first n bytes. */
  lemma AsciiBytes(line: string, n: nat)
    requires n <= |line| && forall i | 0 <= i < n :: line[i] as int < 0x80
    ensures CharsInBytes(line, n) == Some(n)
  {
    AsciiLength(line[..n]);
    CharsInBytesComplete(line, n, n);
  }

  /** A command whose second byte starts a two-byte character is rejected,
      where `line[2..]` panics. */
  lemma CommandSliceInsideChar()
    ensures ParseLine("$\U{e9}cd x").None?
  {
    var line := "$\U{e9}cd x";
    assert line[..1] == "$";
    assert Utf8Width(line[1]) == 2;
    assert CharsInBytes(line[1..], 1).None?;
  }

  /** A line as the terminal prints it. */
  function FormatLine(l: Line): string {
    match l
    case CommandLine(Cd(dir)) => "$ cd " + dir
    case CommandLine(Ls) => "$ ls"
    case DirListing(name) => "dir " + name
    case FileWithSize(name, size) => NatToString(size) + " " + name
  }

  /** Names are single words, and sizes fit in a `u64`. */
  predicate Printable(l: Line) {
    match l
    case CommandLine(Cd(dir)) => IsWord(dir)
    case CommandLine(Ls) => true
    case DirListing(name) => IsWord(name)
    case FileWithSize(name, size) => IsWord(name) && size <= U64Max
  }

  /** Parsing a printed line gives the line back. */
  lemma ParseFormat(l: Line)
    requires Printable(l)
    ensures ParseLine(FormatLine(l)) == Some(l)
  {
    match l
    case CommandLine(Cd(dir)) => ParseCd(dir);
    case CommandLine(Ls) => ParseLs();
    case DirListing(name) => ParseDirListing(name);
    case FileWithSize(name, size) => ParseFileWithSize(name, size);
  }

  lemma ParseCd(dir: string)
    requires IsWord(dir)
    ensures ParseLine("$ cd " + dir) == Some(CommandLine(Cd(dir)))
  {
    var command := "cd " + dir;
    assert "$ cd " + dir == "$ " + command;
    DollarLine(command);
    CdCommand(dir);
  }

  /** "cd d" trims to itself and is a `cd` to d. */
  lemma CdCommand(dir: string)
    requires IsWord(dir)
    ensures Trim("cd " + dir) == "cd " + dir
    ensures ParseCommand("cd " + dir) == Some(CommandLine(Cd(dir)))
  {
    var command := "cd " + dir;
    assert StartsWith(command, "cd") by {
      assert command == "cd" + " " + dir;
      StartsWithConcat("cd", " " + dir);
    }
    CdTrimmed(dir);
    CdArgument(dir);
  }

  lemma CdTrimmed(dir: string)
    requires IsWord(dir)
    ensures Trim("cd " + dir) == "cd " + dir
  {
    var command := "cd " + dir;
    assert command[0] == 'c' && command[|command| - 1] == dir[|dir| - 1];
    TrimOfPadded([], command, []);
    assert [] + command + [] == command;
  }

  lemma CdArgument(dir: string)
    requires IsWord(dir)
    ensures Trim(("cd " + dir)[2..]) == dir
  {
    assert ("cd " + dir)[2..] == " " + dir + [];
    TrimOfPadded(" ", dir, []);
  }

  lemma ParseLs()
    ensures ParseLine("$ ls") == Some(CommandLine(Ls))
  {
    assert "$ ls" == "$ " + "ls";
    DollarLine("ls");
    TrimOfPadded([], "ls", []);
    assert [] + "ls" + [] == "ls";
  }

  lemma ParseDirListing(name: string)
    requires IsWord(name)
    ensures ParseLine("dir " + name) == Some(DirListing(name))
  {
    var line := "dir " + name;
    assert line[0] == 'd';
    CharsInBytesOfPrefix("dir ", name);
    assert !StartsWith(line, "$");
    assert line[..3] == "dir";
    assert line[4..] == name;
    TrimOfPadded([], name, []);
    assert [] + name + [] == name;
  }

  lemma ParseFileWithSize(name: string, size: nat)
    requires IsWord(name) && size <= U64Max
    ensures ParseLine(NatToString(size) + " " + name) == Some(FileWithSize(name, size))
  {
    var digits := NatToString(size);
    var line := digits + " " + name;
    assert IsDigit(digits[0]) && line[0] == digits[0];
    assert !StartsWith(line, "$") by { assert line[0] != '$'; }
    assert !StartsWith(line, "dir") by { assert line[0] != 'd'; }
    assert IsWord(digits);
    assert Join([digits, name][1..], ' ') == name;
    assert Join([digits, name], ' ') == line;
    WordsOfJoin([digits, name]);
    assert Words(line) == [digits, name];
    ParseNatToString(size, U64Max);
  }

  /** A session: the tree built so far and the current directory, as the
      path of names from the root. */
  datatype Session = Session(root: Node, cwd: seq<string>)

  /** The node at the end of `path`, following children by name. */
  function At(n: Node, path: seq<string>): Option<Node>
    decreases |path|
  {
    if path == [] then Some(n)
    else
      match Find(n.children, path[0])
      case None => None
      case Some(child) => At(child, path[1..])
  }

  /** The current directory exists. */
  predicate Valid(s: Session) {
    At(s.root, s.cwd).Some?
  }

  /** Every children table in the tree has unique names. */
  ghost predicate WellNamed(n: Node)
    decreases n
  {
    UniqueNames(n.children) && forall i | 0 <= i < |n.children| :: WellNamed(n.children[i].node)
  }

  /** `append_node` on the node at `path`. */
  function InsertAt(n: Node, path: seq<string>, name: string, node: Node): Node
    requires At(n, path).Some?
    decreases |path|
  {
    if path == [] then n.(children := Insert(n.children, name, node))
    else
      var child := Find(n.children, path[0]).value;
      n.(children := Insert(n.children, path[0], InsertAt(child, path[1..], name, node)))
  }

  /** After the insertion the path still leads to a node of the same kind,
      whose table now holds `node` under `name` and is otherwise unchanged. */
  lemma {:induction false} InsertAtEffect(n: Node, path: seq<string>, name: string, node: Node)
    requires At(n, path).Some?
    ensures var r := InsertAt(n, path, name, node);
            && At(r, path).Some?
            && At(r, path).value.value == At(n, path).value.value
            && Find(At(r, path).value.children, name) == Some(node)
            && forall other | other != name ::
                 Find(At(r, path).value.children, other) == Find(At(n, path).value.children, other)
    decreases |path|
  {
    if path != [] {
      var child := Find(n.children, path[0]).value;
      InsertAtEffect(child, path[1..], name, node);
    }
  }

  /** Insertion keeps every table free of duplicate names. */
  lemma {:induction false} InsertAtWellNamed(n: Node, path: seq<string>, name: string, node: Node)
    requires At(n, path).Some? && WellNamed(n) && WellNamed(node)
    ensures WellNamed(InsertAt(n, path, name, node))
    decreases |path|
  {
    var r := InsertAt(n, path, name, node);
    var inserted := if path == [] then node else InsertAt(Find(n.children, path[0]).value, path[1..], name, node);
    var key := if path == [] then name else path[0];
    if path != [] {
      var i := IndexOfName(n.children, path[0]).value;
      assert n.children[i].node == Find(n.children, path[0]).value;
      InsertAtWellNamed(n.children[i].node, path[1..], name, node);
    }
    InsertWellNamed(n.children, key, inserted);
  }

  lemma InsertWellNamed(cs: seq<Child>, name: string, node: Node)
    requires UniqueNames(cs) && (forall i | 0 <= i < |cs| :: WellNamed(cs[i].node)) && WellNamed(node)
    ensures var r := Insert(cs, name, node);
            forall i | 0 <= i < |r| :: WellNamed(r[i].node)
  {
  }

  /** Listing the same entry twice changes nothing the second time. */
  lemma {:induction false} InsertAtIdempotent(n: Node, path: seq<string>, name: string, node: Node)
    requires At(n, path).Some?
    ensures var r := InsertAt(n, path, name, node);
            At(r, path).Some? && InsertAt(r, path, name, node) == r
    decreases |path|
  {
    var r := InsertAt(n, path, name, node);
    InsertAtEffect(n, path, name, node);
    if path == [] {
      InsertTwice(n.children, name, node);
    } else {
      var child := Find(n.children, path[0]).value;
      InsertAtIdempotent(child, path[1..], name, node);
      var child' := InsertAt(child, path[1..], name, node);
      assert Find(r.children, path[0]) == Some(child');
      InsertTwice(n.children, path[0], child');
    }
  }

  lemma InsertTwice(cs: seq<Child>, name: string, node: Node)
    ensures Insert(Insert(cs, name, node), name, node) == Insert(cs, name, node)
  {
    var r := Insert(cs, name, node);
    var i := IndexOfName(r, name).value;
    assert r[i] == Child(name, node);
    assert r[i := Child(name, node)] == r;
  }

  /** The start of the session: an empty root directory "/", which is also
      the current directory. */
  function Start(): Session {
    Session(NewDir("/"), [])
  }

  /** One line of the session; None where the source panics (`cd ..` at
      the root, `cd` to a name the current directory does not hold). */
  function Step(s: Session, l: Line): (r: Option<Session>)
    requires Valid(s)
    ensures r.Some? ==> Valid(r.value)
  {
    match l
    case FileWithSize(name, size) =>
      InsertAtEffect(s.root, s.cwd, name, Node(File(name, size), []));
      Some(s.(root := InsertAt(s.root, s.cwd, name, Node(File(name, size), []))))
    case DirListing(name) =>
      InsertAtEffect(s.root, s.cwd, name, NewDir(name));
      Some(s.(root := InsertAt(s.root, s.cwd, name, NewDir(name))))
    case CommandLine(Ls) => Some(s)
    case CommandLine(Cd(dir)) =>
      if dir == "/" then Some(s.(cwd := []))
      else if dir == ".." then
        if s.cwd == [] then None
        else
          AtPrefix(s.root, s.cwd, |s.cwd| - 1);
          Some(s.(cwd := s.cwd[..|s.cwd| - 1]))
      else if Find(At(s.root, s.cwd).value.children, dir).None? then None
      else
        AtSnoc(s.root, s.cwd, dir);
        Some(s.(cwd := s.cwd + [dir]))
  }

  /** A prefix of a path that leads somewhere leads somewhere. */
  lemma {:induction false} AtPrefix(n: Node, path: seq<string>, k: nat)
    requires At(n, path).Some? && k <= |path|
    ensures At(n, path[..k]).Some?
    decreases |path|
  {
    if k > 0 {
      var child := Find(n.children, path[0]).value;
      AtPrefix(child, path[1..], k - 1);
      assert path[1..][..k - 1] == path[..k][1..];
    }
  }

  /** One more step down a path. */
  lemma {:induction false} AtSnoc(n: Node, path: seq<string>, name: string)
    requires At(n, path).Some?
    ensures At(n, path + [name]) == Find(At(n, path).value.children, name)
    decreases |path|
  {
    if path != [] {
      var child := Find(n.children, path[0]).value;
      AtSnoc(child, path[1..], name);
      assert (path + [name])[1..] == path[1..] + [name];
    }
  }

  /** Going into a directory and back up returns to the same session. */
  lemma CdDownUp(s: Session, dir: string)
    requires Valid(s) && dir != "/" && dir != ".."
    requires Find(At(s.root, s.cwd).value.children, dir).Some?
    ensures Step(s, CommandLine(Cd(dir))).Some?
    ensures Step(Step(s, CommandLine(Cd(dir))).value, CommandLine(Cd(".."))) == Some(s)
  {
    assert (s.cwd + [dir])[..|s.cwd|] == s.cwd;
  }

  /** The sessions after each of the lines, from the start; None once a
      line does not parse or cannot be carried out. */
  function Replay(lines: seq<string>): (r: Option<Session>)
    ensures r.Some? ==> Valid(r.value)
  {
    if lines == [] then Some(Start()) else ReplayLine(Replay(lines[..|lines| - 1]), lines[|lines| - 1])
  }

  /** One more line of the session, unless it already failed. */
  function ReplayLine(s: Option<Session>, text: string): (r: Option<Session>)
    requires s.Some? ==> Valid(s.value)
    ensures r.Some? ==> Valid(r.value)
    ensures s.None? ==> r.None?
  {
    match s
    case None => None
    case Some(t) =>
      match ParseLine(text)
      case None => None
      case Some(l) => Step(t, l)
  }

  /** The session's tables never hold two entries of one name. */
  lemma {:induction false} ReplayWellNamed(lines: seq<string>)
    ensures Replay(lines).Some? ==> WellNamed(Replay(lines).value.root)
  {
    if lines != [] {
      var front, last := lines[..|lines| - 1], lines[|lines| - 1];
      ReplayWellNamed(front);
      var r := Replay(front);
      if r.Some? {
        var parsed := ParseLine(last);
        if parsed.Some? {
          StepWellNamed(r.value, parsed.value);
        }
      }
    }
  }

  lemma StepWellNamed(s: Session, l: Line)
    requires Valid(s) && WellNamed(s.root)
    ensures Step(s, l).Some? ==> WellNamed(Step(s, l).value.root)
  {
    match l
    case FileWithSize(name, size) =>
      InsertAtWellNamed(s.root, s.cwd, name, Node(File(name, size), []));
    case DirListing(name) =>
      InsertAtWellNamed(s.root, s.cwd, name, NewDir(name));
    case CommandLine(_) =>
  }

  /** Once a line fails, the whole session fails. */
  lemma {:induction false} ReplayFailed(lines: seq<string>, k: nat)
    requires k <= |lines| && Replay(lines[..k]).None?
    ensures Replay(lines).None?
    decreases |lines| - k
  {
    if k < |lines| {
      assert lines[..k + 1][..k] == lines[..k];
      ReplayFailed(lines, k + 1);
    } else {
      assert lines[..k] == lines;
    }
  }

  /** The body of the loop of `run`: one line, parsed, then carried out on
      the tree and the current directory. */
  method Execute(s: Session, text: string) returns (r: Option<Session>)
    requires Valid(s)
    ensures r == ReplayLine(Some(s), text)
  {
    var parsed := ParseLine(text);
    if parsed.None? {
      return None;
    }
    var root, cwd := s.root, s.cwd;
    match parsed.value {
      case FileWithSize(name, size) =>
        root := InsertAt(root, cwd, name, Node(File(name, size), []));
      case DirListing(name) =>
        root := InsertAt(root, cwd, name, NewDir(name));
      case CommandLine(Ls) =>
      case CommandLine(Cd(dir)) =>
        if dir == "/" {
          cwd := [];
        } else if dir == ".." {
          if cwd == [] {
            return None;
          }
          cwd := cwd[..|cwd| - 1];
        } else {
          var child := Find(At(root, cwd).value.children, dir);
          if child.None? {
            return None;
          }
          cwd := cwd + [dir];
        }
    }
    return Some(Session(root, cwd));
  }

  /** The loop of `run` over the input's lines after the first (which is
      the `cd /` the session starts with). */
  method Interpret(input: string) returns (r: Option<Session>)
    ensures var lines := Lines(input);
            r == Replay(if lines == [] then [] else lines[1..])
  {
    var all := Lines(input);
    var lines := if all == [] then [] else all[1..];
    var root := NewDir("/");
    var cwd: seq<string> := [];
    for k := 0 to |lines|
      invariant Replay(lines[..k]) == Some(Session(root, cwd))
    {
      var next := Execute(Session(root, cwd), lines[k]);
      ReplayPrefix(lines, k);
      if next.None? {
        ReplayFailed(lines, k + 1);
        return None;
      }
      root, cwd := next.value.root, next.value.cwd;
    }
    assert lines[..|lines|] == lines;
    return Some(Session(root, cwd));
  }

  lemma ReplayPrefix(lines: seq<string>, k: nat)
    requires k < |lines|
    ensures Replay(lines[..k + 1]) == ReplayLine(Replay(lines[..k]), lines[k])
  {
    assert lines[..k + 1][..k] == lines[..k];
  }

  // ---------------------------------------------------------------- sizes after a listing

  /** Every node along the path, the last included, is a directory. */
  predicate DirsAlong(n: Node, path: seq<string>)
    decreases |path|
  {
    n.value.Dir? &&
    (path != [] ==> Find(n.children, path[0]).Some? && DirsAlong(Find(n.children, path[0]).value, path[1..]))
  }

  lemma {:induction false} SumSizesUpdate(cs: seq<Child>, i: nat, c: Child)
    requires i < |cs|
    ensures SumSizes(cs[i := c]) + TotalSize(cs[i].node) == SumSizes(cs) + TotalSize(c.node)
    decreases |cs|
  {
    var last := |cs| - 1;
    if i < last {
      assert cs[i := c][..last] == cs[..last][i := c];
      SumSizesUpdate(cs[..last], i, c);
    } else {
      assert cs[i := c][..last] == cs[..last];
    }
  }

  /** Inserting under a new name adds the entry's size; replacing an entry
      swaps its size for the new one. */
  lemma SumSizesInsert(cs: seq<Child>, name: string, node: Node)
    ensures match Find(cs, name)
            case None => SumSizes(Insert(cs, name, node)) == SumSizes(cs) + TotalSize(node)
            case Some(previous) => SumSizes(Insert(cs, name, node)) + TotalSize(previous) == SumSizes(cs) + TotalSize(node)
  {
    match IndexOfName(cs, name)
    case Some(i) => SumSizesUpdate(cs, i, Child(name, node));
    case None => assert (cs + [Child(name, node)])[..|cs|] == cs;
  }

  /** Listing a new file in a directory reached through directories grows
      the root's size by exactly the file's size. */
  lemma {:induction false} SizeAfterNewFile(n: Node, path: seq<string>, name: string, size: nat)
    requires At(n, path).Some? && DirsAlong(n, path)
    requires Find(At(n, path).value.children, name).None?
    ensures TotalSize(InsertAt(n, path, name, Node(File(name, size), []))) == TotalSize(n) + size
    decreases |path|
  {
    var file := Node(File(name, size), []);
    if path == [] {
      SumSizesInsert(n.children, name, file);
    } else {
      var child := Find(n.children, path[0]).value;
      SizeAfterNewFile(child, path[1..], name, size);
      SumSizesInsert(n.children, path[0], InsertAt(child, path[1..], name, file));
    }
  }
}
