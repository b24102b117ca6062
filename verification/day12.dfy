/** Day 12: the height-map graph and the Dijkstra-style search over it. */
module Day12Hills {
  import opened Text

  datatype Node = Node(row: int, col: int)

  /** The height map: every cell's character by (row, column). */
  type Grid = map<Node, char>

  /** `Infinitable<i32>` as the search uses it: it never stores
      `NegativeInfinity`, and every finite distance is a sum of step
      weights, so never negative. */
  datatype Dist = Finite(d: nat) | Infinity

  predicate DistLt(a: Dist, b: Dist) {
    a.Finite? && (b.Infinity? || a.d < b.d)
  }

  predicate DistLe(a: Dist, b: Dist) {
    b.Infinity? || (a.Finite? && a.d <= b.d)
  }

  // ------------------------------------------------------------------ graph

  /** The grid's rows: the lines of the trimmed text, each trimmed. */
  function GridRows(input: string): (rows: seq<string>)
    ensures |rows| == |Lines(Trim(input))|
    ensures forall i | 0 <= i < |rows| :: rows[i] == Trim(Lines(Trim(input))[i])
  {
    var lines := Lines(Trim(input));
    seq(|lines|, i requires 0 <= i < |lines| => Trim(lines[i]))
  }

  /** Cell `n` lies in rows 0..r-1, or in row r before column c. */
  predicate Placed(rows: seq<string>, r: int, c: int, n: Node) {
    (0 <= n.row < r && n.row < |rows| && 0 <= n.col < |rows[n.row]|) || (n.row == r && 0 <= n.col < c)
  }

  /** `Graph::from`: trim the text, split it into lines, trim each line, and
      map (line index, character index) to the character. */
  method FromText(input: string) returns (nodes: Grid)
    ensures forall n :: n in nodes <==>
      0 <= n.row < |GridRows(input)| && 0 <= n.col < |GridRows(input)[n.row]|
    ensures forall n | n in nodes :: nodes[n] == GridRows(input)[n.row][n.col]
  {
    ghost var grid := GridRows(input);
    var rows := Lines(Trim(input));
    nodes := map[];
    var r := 0;
    while r < |rows|
      invariant 0 <= r <= |rows|
      invariant forall n :: n in nodes <==> Placed(grid, r, 0, n)
      invariant forall n | n in nodes :: nodes[n] == grid[n.row][n.col]
    {
      var line := Trim(rows[r]);
      assert line == grid[r];
      ghost var before := nodes;
      nodes := InsertRow(nodes, r, line);
      RowPlaced(grid, r, before, nodes);
      r := r + 1;
    }
  }

  /** Inserting row `r` into the cells of the rows above it gives the cells
      of rows 0..r. */
  lemma RowPlaced(grid: seq<string>, r: int, before: Grid, after: Grid)
    requires 0 <= r < |grid|
    requires forall n :: n in before <==> Placed(grid, r, 0, n)
    requires forall n | n in before && Placed(grid, r, 0, n) :: before[n] == grid[n.row][n.col]
    requires forall n :: n in after <==> n in before || (n.row == r && 0 <= n.col < |grid[r]|)
    requires forall n | n in after :: after[n] == if n.row == r && 0 <= n.col < |grid[r]| then grid[r][n.col] else before[n]
    ensures forall n :: n in after <==> Placed(grid, r + 1, 0, n)
    ensures forall n | n in after && Placed(grid, r + 1, 0, n) :: after[n] == grid[n.row][n.col]
  {
  }

  /** The inner loop of `Graph::from`: one row's characters by column. */
  method InsertRow(nodes: Grid, r: int, line: string) returns (nodes': Grid)
    ensures forall n :: n in nodes' <==> n in nodes || (n.row == r && 0 <= n.col < |line|)
    ensures forall n | n in nodes' :: nodes'[n] == if n.row == r && 0 <= n.col < |line| then line[n.col] else nodes[n]
  {
    nodes' := nodes;
    var c := 0;
    while c < |line|
      invariant 0 <= c <= |line|
      invariant forall n :: n in nodes' <==> n in nodes || (n.row == r && 0 <= n.col < c)
      invariant forall n | n in nodes' :: nodes'[n] == if n.row == r && 0 <= n.col < c then line[n.col] else nodes[n]
    {
      nodes' := nodes'[Node(r, c) := line[c]];
      c := c + 1;
    }
  }

  /** `chars_are_connectable`: a step may climb at most one letter and may
      descend any amount. */
  predicate Connectable(from: char, to: char) {
    to as int <= from as int + 1
  }

  lemma ConnectableExamples()
    ensures Connectable('a', 'a') && Connectable('a', 'b') && Connectable('b', 'a')
    ensures !Connectable('a', 'c') && Connectable('c', 'a')
  {
  }

  predicate Adjacent(u: Node, v: Node) {
    (u.row == v.row && (v.col == u.col + 1 || v.col == u.col - 1)) ||
    (u.col == v.col && (v.row == u.row + 1 || v.row == u.row - 1))
  }

  /** A step of the search: between orthogonal neighbours of the map, within
      the climbing rule. */
  predicate Edge(nodes: Grid, u: Node, v: Node) {
    u in nodes && v in nodes && Adjacent(u, v) && Connectable(nodes[u], nodes[v])
  }

  function StepIf(nodes: Grid, u: Node, v: Node): (r: seq<Node>)
    requires u in nodes
    ensures r == [] || r == [v]
    ensures v in r <==> v in nodes && Connectable(nodes[u], nodes[v])
  {
    if v in nodes && Connectable(nodes[u], nodes[v]) then [v] else []
  }

  /** `Graph::neighbors`: the north, south, east and west cells that exist
      and can be stepped onto, in that order. */
  function Neighbors(nodes: Grid, u: Node): seq<Node>
    requires u in nodes
  {
    StepIf(nodes, u, Node(u.row - 1, u.col)) + StepIf(nodes, u, Node(u.row + 1, u.col)) +
    StepIf(nodes, u, Node(u.row, u.col + 1)) + StepIf(nodes, u, Node(u.row, u.col - 1))
  }

  /** No cell occurs twice. */
  predicate Distinct(s: seq<Node>) {
    forall i, j | 0 <= i < j < |s| :: s[i] != s[j]
  }

  /** The neighbours are exactly the steps from `u`, each listed once. */
  lemma NeighborsAreSteps(nodes: Grid, u: Node)
    requires u in nodes
    ensures forall v :: v in Neighbors(nodes, u) <==> Edge(nodes, u, v)
    ensures Distinct(Neighbors(nodes, u))
  {
    forall v
      ensures v in Neighbors(nodes, u) <==> Edge(nodes, u, v)
    {
      NeighborCover(nodes, u, v);
    }
    NeighborsDistinct(nodes, u);
  }

  lemma NeighborsDistinct(nodes: Grid, u: Node)
    requires u in nodes
    ensures Distinct(Neighbors(nodes, u))
  {
    var north, south := Node(u.row - 1, u.col), Node(u.row + 1, u.col);
    var east, west := Node(u.row, u.col + 1), Node(u.row, u.col - 1);
    var a, b, c, d := StepIf(nodes, u, north), StepIf(nodes, u, south), StepIf(nodes, u, east), StepIf(nodes, u, west);
    assert Distinct(a) && AllIn(a, {north});
    AppendDistinct(a, b, south, {north});
    AppendDistinct(a + b, c, east, {north, south});
    AppendDistinct(a + b + c, d, west, {north, south, east});
    assert Neighbors(nodes, u) == a + b + c + d;
  }

  /** Appending at most one cell that is not among those of `s` keeps a
      sequence free of repeats. */
  lemma AppendDistinct(s: seq<Node>, t: seq<Node>, v: Node, among: set<Node>)
    requires Distinct(s) && AllIn(s, among)
    requires (t == [] || t == [v]) && v !in among
    ensures Distinct(s + t) && AllIn(s + t, among + {v})
  {
  }

  predicate AllIn(s: seq<Node>, among: set<Node>) {
    forall i | 0 <= i < |s| :: s[i] in among
  }

  lemma NeighborCover(nodes: Grid, u: Node, v: Node)
    requires u in nodes
    ensures v in Neighbors(nodes, u) <==> Edge(nodes, u, v)
  {
    if Edge(nodes, u, v) {
      assert v == Node(u.row - 1, u.col) || v == Node(u.row + 1, u.col) ||
             v == Node(u.row, u.col + 1) || v == Node(u.row, u.col - 1);
    }
  }

  /** `distance_between_nodes`: a flat step weighs 2, any other step 1. */
  function Weight(nodes: Grid, u: Node, v: Node): (w: nat)
    requires u in nodes && v in nodes
    ensures 1 <= w <= 2
    ensures (w == 2) == (nodes[u] == nodes[v])
  {
    if nodes[v] == nodes[u] then 2 else 1
  }

  /** `find_node`: some cell holding `target`, in the map's own (unspecified)
      iteration order, or None when there is none. */
  method FindNode(nodes: Grid, target: char) returns (r: Option<Node>)
    ensures r.Some? ==> r.value in nodes && nodes[r.value] == target
    ensures r.None? ==> forall n | n in nodes :: nodes[n] != target
  {
    var rest := nodes.Keys;
    while rest != {}
      invariant rest <= nodes.Keys
      invariant forall n | n in nodes && n !in rest :: nodes[n] != target
      decreases |rest|
    {
      var n :| n in rest;
      if nodes[n] == target {
        return Some(n);
      }
      rest := rest - {n};
    }
    return None;
  }

  /** `find_node_with_min_distance`: a member of `candidates` whose distance
      is minimal; every finite distance lies below Infinity. */
  method FindNodeWithMinDistance(dist: map<Node, Dist>, candidates: set<Node>) returns (u: Node)
    requires candidates != {} && candidates <= dist.Keys
    ensures u in candidates
    ensures forall v | v in candidates :: DistLe(dist[u], dist[v])
  {
    var rest := candidates;
    u :| u in rest;
    rest := rest - {u};
    while rest != {}
      invariant rest <= candidates && u in candidates
      invariant forall v | v in candidates && v !in rest :: DistLe(dist[u], dist[v])
      decreases |rest|
    {
      var v :| v in rest;
      if DistLt(dist[v], dist[u]) {
        u := v;
      }
      rest := rest - {v};
    }
  }

  /** The minimum-distance test: of three candidates at distances 1, 0, 1
      only (0, 1) qualifies. */
  lemma MinDistanceExample(u: Node)
    requires u in {Node(0, 0), Node(0, 1), Node(1, 0)}
    requires forall v | v in {Node(0, 0), Node(0, 1), Node(1, 0)} ::
      DistLe(map[Node(0, 0) := Finite(1), Node(0, 1) := Finite(0), Node(1, 0) := Finite(1), Node(1, 1) := Finite(2)][u],
             map[Node(0, 0) := Finite(1), Node(0, 1) := Finite(0), Node(1, 0) := Finite(1), Node(1, 1) := Finite(2)][v])
    ensures u == Node(0, 1)
  {
    var d := map[Node(0, 0) := Finite(1), Node(0, 1) := Finite(0), Node(1, 0) := Finite(1), Node(1, 1) := Finite(2)];
    assert DistLe(d[u], d[Node(0, 1)]);
  }

  // ------------------------------------------------------------------ walks

  /** A sequence of cells, each a step from the one before. */
  predicate IsWalk(nodes: Grid, w: seq<Node>) {
    |w| >= 1 &&
    (forall i | 0 <= i < |w| :: w[i] in nodes) &&
    (forall i | 0 <= i < |w| - 1 :: Edge(nodes, w[i], w[i + 1]))
  }

  ghost predicate Reachable(nodes: Grid, a: Node, b: Node) {
    exists w :: IsWalk(nodes, w) && w[0] == a && w[|w| - 1] == b
  }

  /** A walk that starts inside a set closed under steps never leaves it. */
  lemma {:induction false} WalkStaysInClosedSet(nodes: Grid, closed: set<Node>, w: seq<Node>)
    requires IsWalk(nodes, w) && w[0] in closed
    requires forall u, v | u in closed && Edge(nodes, u, v) :: v in closed
    ensures w[|w| - 1] in closed
  {
    if |w| > 1 {
      var init := w[..|w| - 1];
      assert IsWalk(nodes, init);
      WalkStaysInClosedSet(nodes, closed, init);
      assert Edge(nodes, w[|w| - 2], w[|w| - 1]);
    }
  }

  /** The total weight of a walk: `distance_between_nodes` summed over its
      steps. */
  function WalkWeight(nodes: Grid, w: seq<Node>): nat
    requires forall i | 0 <= i < |w| :: w[i] in nodes
    decreases |w|
  {
    if |w| <= 1 then 0 else Weight(nodes, w[0], w[1]) + WalkWeight(nodes, w[1..])
  }

  /** A walk's weight is the weight up to any of its cells plus the weight
      from that cell on. */
  lemma {:induction false} WalkWeightSplit(nodes: Grid, w: seq<Node>, j: nat)
    requires forall i | 0 <= i < |w| :: w[i] in nodes
    requires j < |w|
    ensures WalkWeight(nodes, w) == WalkWeight(nodes, w[..j + 1]) + WalkWeight(nodes, w[j..])
    decreases j
  {
    if j == 0 {
      assert w[..1] == [w[0]] && w[0..] == w;
    } else {
      var t := w[1..];
      WalkWeightSplit(nodes, t, j - 1);
      assert t[..j] == w[..j + 1][1..];
      assert t[j - 1..] == w[j..];
    }
  }

  /** The weight up to cell `k` is the weight up to cell `k - 1` plus the
      last step, and no more than the weight of the whole walk. */
  lemma LastStepWeight(nodes: Grid, w: seq<Node>, k: nat)
    requires forall i | 0 <= i < |w| :: w[i] in nodes
    requires 1 <= k < |w|
    ensures WalkWeight(nodes, w[..k + 1]) == WalkWeight(nodes, w[..k]) + Weight(nodes, w[k - 1], w[k])
    ensures WalkWeight(nodes, w[..k + 1]) <= WalkWeight(nodes, w)
  {
    var v := w[..k + 1];
    WalkWeightSplit(nodes, v, k - 1);
    assert v[..k] == w[..k];
    assert v[k - 1..] == [w[k - 1], w[k]];
    assert WalkWeight(nodes, [w[k - 1], w[k]]) == Weight(nodes, w[k - 1], w[k]) + WalkWeight(nodes, [w[k]]);
    WalkWeightSplit(nodes, w, k);
  }

  /** `d` is no more than the weight of any walk from `a` to `b`; Infinity
      means that no walk exists. */
  ghost predicate LowerBound(nodes: Grid, a: Node, b: Node, d: Dist) {
    forall w | IsWalk(nodes, w) && w[0] == a && w[|w| - 1] == b :: DistLe(d, Finite(WalkWeight(nodes, w)))
  }

  /** `w` is a walk from `a` to `b` of least total weight. */
  ghost predicate LeastWeightWalk(nodes: Grid, a: Node, b: Node, w: seq<Node>) {
    IsWalk(nodes, w) && w[0] == a && w[|w| - 1] == b && LowerBound(nodes, a, b, Finite(WalkWeight(nodes, w)))
  }

  /** `hops` is the number of steps of some least-weight walk from `a` to
      `b`. Several least-weight walks may differ in length; which one the
      search finds depends on hash order. */
  ghost predicate OptimalHops(nodes: Grid, a: Node, b: Node, hops: nat) {
    exists w :: LeastWeightWalk(nodes, a, b, w) && |w| == hops + 1
  }

  /** `s` is a chain of predecessor links: each cell's predecessor is the
      one before it, and the first cell has none. */
  predicate FollowsLinks(prev: map<Node, Option<Node>>, s: seq<Node>) {
    |s| >= 1 && (forall i | 0 <= i < |s| :: s[i] in prev) && prev[s[0]].None? &&
    forall i | 0 <= i < |s| - 1 :: prev[s[i + 1]] == Some(s[i])
  }

  /** The links decide the chain: two chains that end at the same cell are
      the same, so the hop count of the reconstruction depends on the links
      alone. */
  lemma {:induction false} LinksDetermineChain(prev: map<Node, Option<Node>>, s: seq<Node>, t: seq<Node>)
    requires FollowsLinks(prev, s) && FollowsLinks(prev, t) && s[|s| - 1] == t[|t| - 1]
    ensures s == t
    decreases |s|
  {
    var m, n := |s| - 1, |t| - 1;
    ChainEnd(prev, s);
    ChainEnd(prev, t);
    if m == 0 {
      assert s == [s[0]] && t == [t[0]];
    } else {
      assert prev[s[m]] == Some(s[m - 1]) && prev[t[n]] == Some(t[n - 1]);
      LinksDetermineChain(prev, s[..m], t[..n]);
      assert s == s[..m] + [s[m]] && t == t[..n] + [t[n]];
    }
  }

  /** The last cell of a chain has a predecessor exactly when the chain
      has more than one cell. */
  lemma ChainEnd(prev: map<Node, Option<Node>>, s: seq<Node>)
    requires FollowsLinks(prev, s)
    ensures prev[s[|s| - 1]].None? <==> |s| == 1
  {
    if |s| > 1 {
      assert prev[s[|s| - 1]] == Some(s[|s| - 2]);
    }
  }

  /** The first cell of a walk that lies in `s`, when its last one does. */
  lemma FirstIn(w: seq<Node>, s: set<Node>) returns (k: nat)
    requires |w| > 0 && w[|w| - 1] in s
    ensures k < |w| && w[k] in s && forall i | 0 <= i < k :: w[i] !in s
  {
    k := 0;
    while w[k] !in s
      invariant k < |w| && forall i | 0 <= i < k :: w[i] !in s
      decreases |w| - k
    {
      k := k + 1;
    }
  }

  // ----------------------------------------------------------------- search

  /** The predecessor link u -> v recorded by the search: a step from a
      visited cell with a finite distance, visited before v, and v's
      distance is u's plus the step's weight. */
  ghost predicate PrevLink(nodes: Grid, unvisited: set<Node>, dist: map<Node, Dist>,
                           rank: map<Node, nat>, u: Node, v: Node)
  {
    Edge(nodes, u, v) && u !in unvisited && u in dist && dist[u].Finite? &&
    v in dist && dist[v].Finite? && dist[v].d == dist[u].d + Weight(nodes, u, v) && u in rank &&
    (v in unvisited || (v in rank && rank[u] < rank[v]))
  }

  /** What the search loop keeps true. `rank` numbers the visited cells in
      the order they were visited. */
  ghost predicate SearchInv(nodes: Grid, start: Node, end: Node, unvisited: set<Node>,
                            dist: map<Node, Dist>, prev: map<Node, Option<Node>>,
                            rank: map<Node, nat>, counter: nat)
  {
    SearchShape(nodes, start, end, unvisited, dist, prev, rank, counter) &&
    LinksOk(nodes, unvisited, dist, prev, rank) &&
    FiniteTraced(nodes, start, dist, prev) &&
    VisitedRelaxed(nodes, unvisited, dist) &&
    InfinityStable(nodes, unvisited, dist) &&
    StartFirst(nodes, start, unvisited, dist, prev) &&
    VisitedOptimal(nodes, start, unvisited, dist) &&
    EdgesRelaxed(nodes, unvisited, dist)
  }

  /** A visited cell's distance is no more than the weight of any walk to
      it from the start. */
  ghost predicate VisitedOptimal(nodes: Grid, start: Node, unvisited: set<Node>, dist: map<Node, Dist>)
  {
    forall v | v in nodes && v in dist && v !in unvisited :: LowerBound(nodes, start, v, dist[v])
  }

  /** Every step from a visited cell with a finite distance into an
      unvisited cell has been relaxed. */
  ghost predicate EdgesRelaxed(nodes: Grid, unvisited: set<Node>, dist: map<Node, Dist>)
  {
    forall p, v | p in dist && v in dist && p !in unvisited && v in unvisited && dist[p].Finite? && Edge(nodes, p, v) ::
      DistLe(dist[v], Finite(dist[p].d + Weight(nodes, p, v)))
  }

  ghost predicate SearchShape(nodes: Grid, start: Node, end: Node, unvisited: set<Node>,
                              dist: map<Node, Dist>, prev: map<Node, Option<Node>>,
                              rank: map<Node, nat>, counter: nat)
  {
    unvisited <= nodes.Keys && end in unvisited &&
    nodes.Keys <= dist.Keys && start in dist && dist[start] == Finite(0) &&
    prev.Keys == nodes.Keys &&
    rank.Keys == nodes.Keys - unvisited &&
    (forall v | v in rank :: rank[v] < counter)
  }

  /** Every recorded predecessor link is a step from a visited cell. */
  ghost predicate LinksOk(nodes: Grid, unvisited: set<Node>, dist: map<Node, Dist>,
                          prev: map<Node, Option<Node>>, rank: map<Node, nat>)
  {
    forall v | v in prev && prev[v].Some? :: PrevLink(nodes, unvisited, dist, rank, prev[v].value, v)
  }

  /** A finite distance is the start's or was reached through a predecessor. */
  ghost predicate FiniteTraced(nodes: Grid, start: Node, dist: map<Node, Dist>, prev: map<Node, Option<Node>>)
  {
    forall v | v in nodes && v in dist && v in prev && dist[v].Finite? :: v == start || prev[v].Some?
  }

  /** A visited cell with a finite distance has relaxed all its steps. */
  ghost predicate VisitedRelaxed(nodes: Grid, unvisited: set<Node>, dist: map<Node, Dist>)
  {
    forall a, b | a in dist && b in dist && a !in unvisited && dist[a].Finite? && Edge(nodes, a, b) :: dist[b].Finite?
  }

  /** Once an unreached cell is visited, every unvisited cell is unreached. */
  ghost predicate InfinityStable(nodes: Grid, unvisited: set<Node>, dist: map<Node, Dist>)
  {
    forall a, b | a in nodes && a in dist && b in dist && a !in unvisited && dist[a].Infinity? && b in unvisited :: dist[b].Infinity?
  }

  /** The start is visited first, and never gets a predecessor. */
  ghost predicate StartFirst(nodes: Grid, start: Node, unvisited: set<Node>,
                             dist: map<Node, Dist>, prev: map<Node, Option<Node>>)
  {
    (start in unvisited ==> unvisited == nodes.Keys && forall v | v in nodes && v in dist && v != start :: dist[v].Infinity?) &&
    (start in prev ==> prev[start].None?)
  }

  /** The distance of `v` after `u` relaxes it. */
  function Relaxed(nodes: Grid, u: Node, unvisited: set<Node>, dist: map<Node, Dist>, v: Node): Dist
    requires u in nodes && u in dist && v in dist
  {
    if v in unvisited && Edge(nodes, u, v) && dist[u].Finite? &&
       DistLt(Finite(dist[u].d + Weight(nodes, u, v)), dist[v])
    then Finite(dist[u].d + Weight(nodes, u, v))
    else dist[v]
  }

  function RelaxedPrev(nodes: Grid, u: Node, unvisited: set<Node>, dist: map<Node, Dist>,
                       prev: map<Node, Option<Node>>, v: Node): Option<Node>
    requires u in nodes && u in dist && v in dist && v in prev
  {
    if Relaxed(nodes, u, unvisited, dist, v) != dist[v] then Some(u) else prev[v]
  }

  /** The inner loop of `dijkstra`: for each neighbour of `u` still
      unvisited, skip when `u`'s distance is infinite, otherwise lower the
      neighbour's distance through `u` when that is shorter and record `u`
      as its predecessor. */
  method RelaxNeighbors(nodes: Grid, u: Node, unvisited: set<Node>,
                        dist: map<Node, Dist>, prev: map<Node, Option<Node>>)
    returns (dist': map<Node, Dist>, prev': map<Node, Option<Node>>)
    requires u in nodes && nodes.Keys <= dist.Keys && prev.Keys == nodes.Keys && u in dist
    ensures dist'.Keys == dist.Keys && prev'.Keys == prev.Keys
    ensures forall v | v in dist :: dist'[v] == Relaxed(nodes, u, unvisited, dist, v)
    ensures forall v | v in prev :: prev'[v] == RelaxedPrev(nodes, u, unvisited, dist, prev, v)
  {
    var ns := Neighbors(nodes, u);
    NeighborsAreSteps(nodes, u);
    dist', prev' := dist, prev;
    var i := 0;
    while i < |ns|
      invariant 0 <= i <= |ns|
      invariant RelaxedUpTo(nodes, u, unvisited, dist, prev, ns[..i], dist', prev')
    {
      var v := ns[i];
      ghost var d1, p1 := dist', prev';
      dist', prev' := RelaxOne(nodes, u, unvisited, dist', prev', v);
      RelaxStep(nodes, u, unvisited, dist, prev, ns, i, d1, p1);
      i := i + 1;
    }
    RelaxFinish(nodes, u, unvisited, dist, prev, ns, dist', prev');
  }

  /** With every neighbour relaxed, every cell has its relaxed value. */
  lemma RelaxFinish(nodes: Grid, u: Node, unvisited: set<Node>,
                    dist: map<Node, Dist>, prev: map<Node, Option<Node>>, ns: seq<Node>,
                    dist1: map<Node, Dist>, prev1: map<Node, Option<Node>>)
    requires u in nodes && u in dist && prev.Keys <= dist.Keys
    requires forall v :: v in ns <==> Edge(nodes, u, v)
    requires RelaxedUpTo(nodes, u, unvisited, dist, prev, ns[..|ns|], dist1, prev1)
    ensures dist1.Keys == dist.Keys && prev1.Keys == prev.Keys
    ensures forall v | v in dist :: dist1[v] == Relaxed(nodes, u, unvisited, dist, v)
    ensures forall v | v in prev :: prev1[v] == RelaxedPrev(nodes, u, unvisited, dist, prev, v)
  {
    assert ns[..|ns|] == ns;
  }

  /** `dist1`, `prev1` are `dist`, `prev` with the cells of `done` relaxed. */
  ghost predicate RelaxedUpTo(nodes: Grid, u: Node, unvisited: set<Node>,
                              dist: map<Node, Dist>, prev: map<Node, Option<Node>>, done: seq<Node>,
                              dist1: map<Node, Dist>, prev1: map<Node, Option<Node>>)
    requires u in nodes && u in dist && prev.Keys <= dist.Keys
  {
    DistRelaxedUpTo(nodes, u, unvisited, dist, done, dist1) &&
    PrevRelaxedUpTo(nodes, u, unvisited, dist, prev, done, prev1)
  }

  ghost predicate DistRelaxedUpTo(nodes: Grid, u: Node, unvisited: set<Node>,
                                  dist: map<Node, Dist>, done: seq<Node>, dist1: map<Node, Dist>)
    requires u in nodes && u in dist
  {
    dist1.Keys == dist.Keys &&
    forall v | v in dist :: dist1[v] == if v in done then Relaxed(nodes, u, unvisited, dist, v) else dist[v]
  }

  ghost predicate PrevRelaxedUpTo(nodes: Grid, u: Node, unvisited: set<Node>,
                                  dist: map<Node, Dist>, prev: map<Node, Option<Node>>, done: seq<Node>,
                                  prev1: map<Node, Option<Node>>)
    requires u in nodes && u in dist && prev.Keys <= dist.Keys
  {
    prev1.Keys == prev.Keys &&
    forall v | v in prev :: prev1[v] == if v in done then RelaxedPrev(nodes, u, unvisited, dist, prev, v) else prev[v]
  }

  /** The `i`th neighbour is new: not among the earlier ones, and not `u`. */
  lemma NextNeighbor(nodes: Grid, u: Node, ns: seq<Node>, i: nat)
    requires u in nodes && ns == Neighbors(nodes, u) && i < |ns|
    ensures Edge(nodes, u, ns[i]) && ns[i] !in ns[..i] && u !in ns[..i + 1]
    ensures ns[..i + 1] == ns[..i] + [ns[i]]
  {
    NeighborsAreSteps(nodes, u);
    assert ns[i] in ns;
    assert !Edge(nodes, u, u);
    NextOfDistinct(ns, i, u);
  }

  /** In a sequence without repeats, the `i`th element is not among the
      earlier ones. */
  lemma NextOfDistinct(ns: seq<Node>, i: nat, u: Node)
    requires Distinct(ns) && i < |ns| && u !in ns
    ensures ns[i] !in ns[..i] && u !in ns[..i + 1]
    ensures ns[..i + 1] == ns[..i] + [ns[i]]
  {
  }

  lemma RelaxStep(nodes: Grid, u: Node, unvisited: set<Node>,
                  dist: map<Node, Dist>, prev: map<Node, Option<Node>>, ns: seq<Node>, i: nat,
                  dist1: map<Node, Dist>, prev1: map<Node, Option<Node>>)
    requires u in nodes && u in dist && nodes.Keys <= dist.Keys && prev.Keys == nodes.Keys
    requires ns == Neighbors(nodes, u) && i < |ns|
    requires RelaxedUpTo(nodes, u, unvisited, dist, prev, ns[..i], dist1, prev1)
    ensures RelaxedUpTo(nodes, u, unvisited, dist, prev, ns[..i + 1],
      dist1[ns[i] := Relaxed(nodes, u, unvisited, dist1, ns[i])],
      prev1[ns[i] := RelaxedPrev(nodes, u, unvisited, dist1, prev1, ns[i])])
  {
    NextNeighbor(nodes, u, ns, i);
    var v := ns[i];
    assert dist1[u] == dist[u] && dist1[v] == dist[v] && prev1[v] == prev[v];
    assert Relaxed(nodes, u, unvisited, dist1, v) == Relaxed(nodes, u, unvisited, dist, v);
    DistStep(nodes, u, unvisited, dist, ns[..i], v, dist1);
    PrevStep(nodes, u, unvisited, dist, prev, ns[..i], v, prev1);
  }

  lemma DistStep(nodes: Grid, u: Node, unvisited: set<Node>,
                 dist: map<Node, Dist>, done: seq<Node>, v: Node, dist1: map<Node, Dist>)
    requires u in nodes && u in dist && v in dist
    requires DistRelaxedUpTo(nodes, u, unvisited, dist, done, dist1)
    ensures DistRelaxedUpTo(nodes, u, unvisited, dist, done + [v],
      dist1[v := Relaxed(nodes, u, unvisited, dist, v)])
  {
  }

  lemma PrevStep(nodes: Grid, u: Node, unvisited: set<Node>,
                 dist: map<Node, Dist>, prev: map<Node, Option<Node>>, done: seq<Node>, v: Node,
                 prev1: map<Node, Option<Node>>)
    requires u in nodes && u in dist && v in prev && prev.Keys <= dist.Keys
    requires PrevRelaxedUpTo(nodes, u, unvisited, dist, prev, done, prev1)
    ensures PrevRelaxedUpTo(nodes, u, unvisited, dist, prev, done + [v],
      prev1[v := RelaxedPrev(nodes, u, unvisited, dist, prev, v)])
  {
  }

  /** One turn of the inner loop of `dijkstra`, for neighbour `v`. */
  method RelaxOne(nodes: Grid, u: Node, unvisited: set<Node>,
                  dist: map<Node, Dist>, prev: map<Node, Option<Node>>, v: Node)
    returns (dist': map<Node, Dist>, prev': map<Node, Option<Node>>)
    requires u in nodes && u in dist && v in dist && v in prev && Edge(nodes, u, v)
    ensures dist' == dist[v := Relaxed(nodes, u, unvisited, dist, v)]
    ensures prev' == prev[v := RelaxedPrev(nodes, u, unvisited, dist, prev, v)]
  {
    dist', prev' := dist, prev;
    if v in unvisited {
      match dist[u] {
        case Infinity =>
        case Finite(du) =>
          var alt := du + Weight(nodes, u, v);
          if DistLt(Finite(alt), dist[v]) {
            dist' := dist[v := Finite(alt)];
            prev' := prev[v := Some(u)];
          }
      }
    }
  }

  /** `dijkstra` from `start` to `end`: repeatedly visit an unvisited cell of
      least distance, stop when it is `end`, else relax its steps; then
      count the predecessor links back from `end`. The answer is None exactly
      when `end` is `start` or cannot be reached; otherwise it is the number
      of steps of a walk from `start` to `end` of least total weight. */
  method Dijkstra(nodes: Grid, start: Node, end: Node) returns (hops: Option<nat>)
    requires end in nodes
    ensures hops.Some? ==> OptimalHops(nodes, start, end, hops.value)
    ensures hops.None? <==> start == end || !Reachable(nodes, start, end)
  {
    var unvisited := nodes.Keys;
    var dist: map<Node, Dist> := map v | v in nodes :: Infinity;
    var prev: map<Node, Option<Node>> := map v | v in nodes :: None;
    dist := dist[start := Finite(0)];
    ghost var rank: map<Node, nat> := map[];
    ghost var counter: nat := 0;
    InitialSearch(nodes, start, end);

    while |unvisited| > 0
      invariant SearchInv(nodes, start, end, unvisited, dist, prev, rank, counter)
      decreases |unvisited|
    {
      var u := FindNodeWithMinDistance(dist, unvisited);
      if u == end {
        break;
      }
      unvisited, dist, prev, rank, counter := Visit(nodes, start, end, unvisited, dist, prev, rank, counter, u);
    }
    // `end` is never removed, so the loop ends by visiting it
    assert forall v | v in unvisited :: DistLe(dist[end], dist[v]);
    hops := PathLength(nodes, start, end, unvisited, dist, prev, rank, counter);
  }

  /** One turn of the search loop of `dijkstra`: mark `u`, the unvisited
      cell of least distance, visited, and relax its steps. */
  method Visit(nodes: Grid, start: Node, end: Node, unvisited: set<Node>,
               dist: map<Node, Dist>, prev: map<Node, Option<Node>>,
               ghost rank: map<Node, nat>, ghost counter: nat, u: Node)
    returns (unvisited': set<Node>, dist': map<Node, Dist>, prev': map<Node, Option<Node>>,
             ghost rank': map<Node, nat>, ghost counter': nat)
    requires SearchInv(nodes, start, end, unvisited, dist, prev, rank, counter)
    requires u in unvisited && u != end && forall v | v in unvisited :: DistLe(dist[u], dist[v])
    ensures unvisited' == unvisited - {u} && |unvisited'| == |unvisited| - 1
    ensures dist'.Keys == dist.Keys && forall v | v in dist :: dist'[v] == Relaxed(nodes, u, unvisited', dist, v)
    ensures SearchInv(nodes, start, end, unvisited', dist', prev', rank', counter')
  {
    unvisited' := unvisited - {u};
    rank' := rank[u := counter];
    counter' := counter + 1;
    dist', prev' := RelaxNeighbors(nodes, u, unvisited', dist, prev);
    VisitKeepsInv(nodes, start, end, unvisited, dist, prev, rank, counter, u, dist', prev');
  }

  /** The search starts with every cell unvisited, only the start at a
      finite distance, no predecessor links and nothing ranked. */
  lemma InitialSearch(nodes: Grid, start: Node, end: Node)
    requires end in nodes
    ensures SearchInv(nodes, start, end, nodes.Keys, (map v | v in nodes :: Infinity)[start := Finite(0)],
      map v | v in nodes :: None, map[], 0)
  {
  }

  /** Visiting `u` (removed from `unvisited`, ranked last, its steps relaxed)
      keeps the search invariant. */
  lemma VisitKeepsInv(nodes: Grid, start: Node, end: Node, un0: set<Node>,
                      d0: map<Node, Dist>, p0: map<Node, Option<Node>>,
                      rank0: map<Node, nat>, counter0: nat, u: Node,
                      dist: map<Node, Dist>, prev: map<Node, Option<Node>>)
    requires SearchInv(nodes, start, end, un0, d0, p0, rank0, counter0)
    requires u in un0 && u != end
    requires forall v | v in un0 :: DistLe(d0[u], d0[v])
    requires dist.Keys == d0.Keys && prev.Keys == p0.Keys
    requires forall v | v in d0 :: dist[v] == Relaxed(nodes, u, un0 - {u}, d0, v)
    requires forall v | v in p0 :: prev[v] == RelaxedPrev(nodes, u, un0 - {u}, d0, p0, v)
    ensures SearchInv(nodes, start, end, un0 - {u}, dist, prev, rank0[u := counter0], counter0 + 1)
  {
    VisitShape(nodes, start, end, un0, d0, p0, rank0, counter0, u, dist, prev);
    VisitLinks(nodes, start, end, un0, d0, p0, rank0, counter0, u, dist, prev);
    VisitFiniteTraced(nodes, start, end, un0, d0, p0, rank0, counter0, u, dist, prev);
    VisitRelaxed(nodes, start, end, un0, d0, p0, rank0, counter0, u, dist, prev);
    VisitInfinityStable(nodes, start, end, un0, d0, p0, rank0, counter0, u, dist, prev);
    VisitStartFirst(nodes, start, end, un0, d0, p0, rank0, counter0, u, dist, prev);
    VisitOptimal(nodes, start, end, un0, d0, p0, rank0, counter0, u, dist, prev);
    VisitEdgesRelaxed(nodes, start, end, un0, d0, p0, rank0, counter0, u, dist, prev);
  }

  /** The cell the search picks, an unvisited one of least distance, has a
      distance no greater than the weight of any walk to it: such a walk
      leaves the visited cells somewhere, and the cell where it does had its
      distance relaxed from the visited cell before it. */
  lemma MinIsLowerBound(nodes: Grid, start: Node, end: Node, unvisited: set<Node>,
                        dist: map<Node, Dist>, prev: map<Node, Option<Node>>,
                        rank: map<Node, nat>, counter: nat, u: Node)
    requires SearchInv(nodes, start, end, unvisited, dist, prev, rank, counter)
    requires u in unvisited && forall v | v in unvisited :: DistLe(dist[u], dist[v])
    ensures LowerBound(nodes, start, u, dist[u])
  {
    forall w | IsWalk(nodes, w) && w[0] == start && w[|w| - 1] == u
      ensures DistLe(dist[u], Finite(WalkWeight(nodes, w)))
    {
      WalkBound(nodes, start, unvisited, dist, u, w);
    }
  }

  lemma WalkBound(nodes: Grid, start: Node, unvisited: set<Node>, dist: map<Node, Dist>, u: Node, w: seq<Node>)
    requires unvisited <= nodes.Keys && nodes.Keys <= dist.Keys && start in dist && dist[start] == Finite(0)
    requires VisitedOptimal(nodes, start, unvisited, dist) && EdgesRelaxed(nodes, unvisited, dist)
    requires u in unvisited && forall v | v in unvisited :: DistLe(dist[u], dist[v])
    requires IsWalk(nodes, w) && w[0] == start && w[|w| - 1] == u
    ensures DistLe(dist[u], Finite(WalkWeight(nodes, w)))
  {
    var k := FirstIn(w, unvisited);
    WalkWeightSplit(nodes, w, k);
    if k == 0 {
      assert DistLe(dist[u], dist[start]);
    } else {
      var p, x := w[k - 1], w[k];
      var front := w[..k];
      assert IsWalk(nodes, front) && front[0] == start && front[|front| - 1] == p;
      assert p !in unvisited;
      assert DistLe(dist[p], Finite(WalkWeight(nodes, front)));
      LastStepWeight(nodes, w, k);
      assert Edge(nodes, p, x);
      assert DistLe(dist[x], Finite(dist[p].d + Weight(nodes, p, x)));
      assert DistLe(dist[u], dist[x]);
    }
  }

  lemma VisitOptimal(nodes: Grid, start: Node, end: Node, un0: set<Node>,
                     d0: map<Node, Dist>, p0: map<Node, Option<Node>>,
                     rank0: map<Node, nat>, counter0: nat, u: Node,
                     dist: map<Node, Dist>, prev: map<Node, Option<Node>>)
    requires VisitStep(nodes, start, end, un0, d0, p0, rank0, counter0, u, dist, prev)
    ensures VisitedOptimal(nodes, start, un0 - {u}, dist)
  {
    MinIsLowerBound(nodes, start, end, un0, d0, p0, rank0, counter0, u);
    forall v | v in nodes && v in dist && v !in un0 - {u}
      ensures LowerBound(nodes, start, v, dist[v])
    {
      assert dist[v] == d0[v];
    }
  }

  lemma VisitEdgesRelaxed(nodes: Grid, start: Node, end: Node, un0: set<Node>,
                          d0: map<Node, Dist>, p0: map<Node, Option<Node>>,
                          rank0: map<Node, nat>, counter0: nat, u: Node,
                          dist: map<Node, Dist>, prev: map<Node, Option<Node>>)
    requires VisitStep(nodes, start, end, un0, d0, p0, rank0, counter0, u, dist, prev)
    ensures EdgesRelaxed(nodes, un0 - {u}, dist)
  {
    var unvisited := un0 - {u};
    forall p, v | p in dist && v in dist && p !in unvisited && v in unvisited && dist[p].Finite? && Edge(nodes, p, v)
      ensures DistLe(dist[v], Finite(dist[p].d + Weight(nodes, p, v)))
    {
      assert dist[p] == d0[p];
      if p != u {
        assert DistLe(d0[v], Finite(d0[p].d + Weight(nodes, p, v)));
      }
    }
  }

  /** The common premise of the visit lemmas. */
  ghost predicate VisitStep(nodes: Grid, start: Node, end: Node, un0: set<Node>,
                            d0: map<Node, Dist>, p0: map<Node, Option<Node>>,
                            rank0: map<Node, nat>, counter0: nat, u: Node,
                            dist: map<Node, Dist>, prev: map<Node, Option<Node>>)
  {
    SearchInv(nodes, start, end, un0, d0, p0, rank0, counter0) &&
    u in un0 && u != end &&
    (forall v | v in un0 :: DistLe(d0[u], d0[v])) &&
    dist.Keys == d0.Keys && prev.Keys == p0.Keys &&
    (forall v | v in d0 :: dist[v] == Relaxed(nodes, u, un0 - {u}, d0, v)) &&
    (forall v | v in p0 :: prev[v] == RelaxedPrev(nodes, u, un0 - {u}, d0, p0, v))
  }

  lemma VisitLinks(nodes: Grid, start: Node, end: Node, un0: set<Node>,
                   d0: map<Node, Dist>, p0: map<Node, Option<Node>>,
                   rank0: map<Node, nat>, counter0: nat, u: Node,
                   dist: map<Node, Dist>, prev: map<Node, Option<Node>>)
    requires VisitStep(nodes, start, end, un0, d0, p0, rank0, counter0, u, dist, prev)
    ensures LinksOk(nodes, un0 - {u}, dist, prev, rank0[u := counter0])
  {
    forall v | v in prev && prev[v].Some?
      ensures PrevLink(nodes, un0 - {u}, dist, rank0[u := counter0], prev[v].value, v)
    {
      VisitLink(nodes, start, end, un0, d0, p0, rank0, counter0, u, dist, prev, v);
    }
  }

  /** The predecessor link of `v` after the visit. */
  lemma VisitLink(nodes: Grid, start: Node, end: Node, un0: set<Node>,
                  d0: map<Node, Dist>, p0: map<Node, Option<Node>>,
                  rank0: map<Node, nat>, counter0: nat, u: Node,
                  dist: map<Node, Dist>, prev: map<Node, Option<Node>>, v: Node)
    requires VisitStep(nodes, start, end, un0, d0, p0, rank0, counter0, u, dist, prev)
    requires v in prev && prev[v].Some?
    ensures PrevLink(nodes, un0 - {u}, dist, rank0[u := counter0], prev[v].value, v)
  {
    if prev[v] != p0[v] {
      assert prev[v].value == u;
    } else {
      var w := prev[v].value;
      assert PrevLink(nodes, un0, d0, rank0, w, v);
      assert d0[w].Finite? && d0[v].Finite?;
    }
  }

  lemma VisitFiniteTraced(nodes: Grid, start: Node, end: Node, un0: set<Node>,
                          d0: map<Node, Dist>, p0: map<Node, Option<Node>>,
                          rank0: map<Node, nat>, counter0: nat, u: Node,
                          dist: map<Node, Dist>, prev: map<Node, Option<Node>>)
    requires VisitStep(nodes, start, end, un0, d0, p0, rank0, counter0, u, dist, prev)
    ensures FiniteTraced(nodes, start, dist, prev)
  {
    forall v | v in nodes && v in dist && v in prev && dist[v].Finite?
      ensures v == start || prev[v].Some?
    {
      if dist[v] == d0[v] {
        assert v == start || p0[v].Some?;
      }
    }
  }

  lemma VisitShape(nodes: Grid, start: Node, end: Node, un0: set<Node>,
                   d0: map<Node, Dist>, p0: map<Node, Option<Node>>,
                   rank0: map<Node, nat>, counter0: nat, u: Node,
                   dist: map<Node, Dist>, prev: map<Node, Option<Node>>)
    requires VisitStep(nodes, start, end, un0, d0, p0, rank0, counter0, u, dist, prev)
    ensures SearchShape(nodes, start, end, un0 - {u}, dist, prev, rank0[u := counter0], counter0 + 1)
  {
    assert SearchShape(nodes, start, end, un0, d0, p0, rank0, counter0);
    assert dist[start] == Relaxed(nodes, u, un0 - {u}, d0, start);
    RankAfterVisit(nodes, un0, rank0, counter0, u, rank0[u := counter0]);
  }

  /** Ranking `u` last keeps the ranks below the counter and the ranked
      cells the visited ones. */
  lemma RankAfterVisit(nodes: Grid, un0: set<Node>, rank0: map<Node, nat>, counter0: nat, u: Node, rank: map<Node, nat>)
    requires un0 <= nodes.Keys && u in un0
    requires rank0.Keys == nodes.Keys - un0 && forall v | v in rank0 :: rank0[v] < counter0
    requires rank == rank0[u := counter0]
    ensures rank.Keys == nodes.Keys - (un0 - {u})
    ensures forall v | v in rank :: rank[v] < counter0 + 1
  {
    assert rank.Keys == rank0.Keys + {u};
  }

  lemma VisitRelaxed(nodes: Grid, start: Node, end: Node, un0: set<Node>,
                     d0: map<Node, Dist>, p0: map<Node, Option<Node>>,
                     rank0: map<Node, nat>, counter0: nat, u: Node,
                     dist: map<Node, Dist>, prev: map<Node, Option<Node>>)
    requires VisitStep(nodes, start, end, un0, d0, p0, rank0, counter0, u, dist, prev)
    ensures VisitedRelaxed(nodes, un0 - {u}, dist)
  {
    var unvisited := un0 - {u};
    forall a, b | a in dist && b in dist && a !in unvisited && dist[a].Finite? && Edge(nodes, a, b)
      ensures dist[b].Finite?
    {
      VisitRelaxedStep(nodes, start, end, un0, d0, p0, rank0, counter0, u, dist, prev, a, b);
    }
  }

  /** A step from a visited cell with a finite distance reaches a cell with
      a finite distance. */
  lemma VisitRelaxedStep(nodes: Grid, start: Node, end: Node, un0: set<Node>,
                         d0: map<Node, Dist>, p0: map<Node, Option<Node>>,
                         rank0: map<Node, nat>, counter0: nat, u: Node,
                         dist: map<Node, Dist>, prev: map<Node, Option<Node>>, a: Node, b: Node)
    requires VisitStep(nodes, start, end, un0, d0, p0, rank0, counter0, u, dist, prev)
    requires a in dist && b in dist && a !in un0 - {u} && dist[a].Finite? && Edge(nodes, a, b)
    ensures dist[b].Finite?
  {
    var unvisited := un0 - {u};
    if a == u {
      if b in unvisited {
        assert Relaxed(nodes, u, unvisited, d0, b).Finite?;
      } else {
        // b was visited before u; had it been unreached, so would u be
        assert b !in un0 && InfinityStable(nodes, un0, d0);
        assert d0[b].Finite?;
      }
    } else {
      EarlierRelaxed(nodes, start, end, un0, d0, p0, rank0, counter0, u, dist, prev, a, b);
    }
  }

  /** A step from a cell visited before `u` reached a finite distance then. */
  lemma EarlierRelaxed(nodes: Grid, start: Node, end: Node, un0: set<Node>,
                       d0: map<Node, Dist>, p0: map<Node, Option<Node>>,
                       rank0: map<Node, nat>, counter0: nat, u: Node,
                       dist: map<Node, Dist>, prev: map<Node, Option<Node>>, a: Node, b: Node)
    requires VisitStep(nodes, start, end, un0, d0, p0, rank0, counter0, u, dist, prev)
    requires a in dist && b in dist && a !in un0 && dist[a].Finite? && Edge(nodes, a, b)
    ensures dist[b].Finite?
  {
    assert d0[a] == dist[a];
    assert VisitedRelaxed(nodes, un0, d0);
    assert d0[b].Finite?;
  }

  lemma VisitInfinityStable(nodes: Grid, start: Node, end: Node, un0: set<Node>,
                            d0: map<Node, Dist>, p0: map<Node, Option<Node>>,
                            rank0: map<Node, nat>, counter0: nat, u: Node,
                            dist: map<Node, Dist>, prev: map<Node, Option<Node>>)
    requires VisitStep(nodes, start, end, un0, d0, p0, rank0, counter0, u, dist, prev)
    ensures InfinityStable(nodes, un0 - {u}, dist)
  {
    var unvisited := un0 - {u};
    forall a, b | a in nodes && a in dist && b in dist && a !in unvisited && dist[a].Infinity? && b in unvisited
      ensures dist[b].Infinity?
    {
      assert d0[a].Infinity?;
      if a == u {
        assert DistLe(d0[u], d0[b]);
      } else {
        assert d0[b].Infinity?;
        // u was unvisited while a was visited unreached
        assert d0[u].Infinity?;
      }
    }
  }

  lemma VisitStartFirst(nodes: Grid, start: Node, end: Node, un0: set<Node>,
                        d0: map<Node, Dist>, p0: map<Node, Option<Node>>,
                        rank0: map<Node, nat>, counter0: nat, u: Node,
                        dist: map<Node, Dist>, prev: map<Node, Option<Node>>)
    requires VisitStep(nodes, start, end, un0, d0, p0, rank0, counter0, u, dist, prev)
    ensures StartFirst(nodes, start, un0 - {u}, dist, prev)
  {
    if start in un0 {
      assert DistLe(d0[u], d0[start]);
      assert u == start;
    }
    if start in prev {
      assert Relaxed(nodes, u, un0 - {u}, d0, start) == d0[start];
    }
  }

  /** The path reconstruction of `dijkstra`: None when `end` has no
      predecessor, else the number of links followed back from `end` until a
      cell with no predecessor. */
  method PathLength(nodes: Grid, start: Node, end: Node, unvisited: set<Node>,
                    dist: map<Node, Dist>, prev: map<Node, Option<Node>>,
                    ghost rank: map<Node, nat>, ghost counter: nat)
    returns (hops: Option<nat>)
    requires SearchInv(nodes, start, end, unvisited, dist, prev, rank, counter)
    requires forall v | v in unvisited :: DistLe(dist[end], dist[v])
    ensures hops.None? <==> prev[end].None?
    ensures hops.Some? ==> exists s :: FollowsLinks(prev, s) && s[|s| - 1] == end && |s| == hops.value + 1
    ensures hops.Some? ==> OptimalHops(nodes, start, end, hops.value)
    ensures hops.None? <==> start == end || !Reachable(nodes, start, end)
  {
    if prev[end].None? {
      if start != end {
        NoLinkUnreachable(nodes, start, end, unvisited, dist, prev, rank, counter);
      }
      return None;
    }
    TracedFromSearch(nodes, start, end, unvisited, dist, prev, rank, counter);
    var s := TraceBack(nodes, start, end, dist, prev, rank, counter);
    MinIsLowerBound(nodes, start, end, unvisited, dist, prev, rank, counter, end);
    assert LeastWeightWalk(nodes, start, end, s);
    hops := Some(|s| - 1);
  }

  /** What following the predecessor links needs: each link is a step from a
      cell at a finite distance ranked earlier, whose distance plus the
      step's weight is the linked cell's; the ranks lie below `counter`; a
      finite distance is the start's or has a link; the start is at 0. */
  ghost predicate Traced(nodes: Grid, start: Node, dist: map<Node, Dist>, prev: map<Node, Option<Node>>,
                         rank: map<Node, nat>, counter: nat)
  {
    nodes.Keys <= dist.Keys && prev.Keys == nodes.Keys && start in dist && dist[start] == Finite(0) &&
    (forall v | v in prev && prev[v].Some? ::
      Edge(nodes, prev[v].value, v) && dist[prev[v].value].Finite? && prev[v].value in rank &&
      dist[v].Finite? && dist[v].d == dist[prev[v].value].d + Weight(nodes, prev[v].value, v) &&
      rank[prev[v].value] < (if v in rank then rank[v] else counter)) &&
    FiniteTraced(nodes, start, dist, prev)
  }

  lemma TracedFromSearch(nodes: Grid, start: Node, end: Node, unvisited: set<Node>,
                         dist: map<Node, Dist>, prev: map<Node, Option<Node>>,
                         rank: map<Node, nat>, counter: nat)
    requires SearchInv(nodes, start, end, unvisited, dist, prev, rank, counter)
    ensures Traced(nodes, start, dist, prev, rank, counter)
  {
    forall v | v in prev && prev[v].Some?
      ensures rank[prev[v].value] < (if v in rank then rank[v] else counter)
    {
      assert PrevLink(nodes, unvisited, dist, rank, prev[v].value, v);
    }
  }

  /** The path reconstruction loop of `dijkstra`: follow the predecessor
      links back from `end` to a cell without one, which is the start. */
  method TraceBack(nodes: Grid, start: Node, end: Node, dist: map<Node, Dist>, prev: map<Node, Option<Node>>,
                   ghost rank: map<Node, nat>, ghost counter: nat)
    returns (s: seq<Node>)
    requires Traced(nodes, start, dist, prev, rank, counter)
    requires end in nodes && prev[end].Some?
    ensures FollowsLinks(prev, s) && s[|s| - 1] == end && |s| >= 2
    ensures IsWalk(nodes, s) && s[0] == start
    ensures dist[end].Finite? && WalkWeight(nodes, s) == dist[end].d
  {
    s := [];
    var cur: Option<Node> := Some(end);
    while cur.Some?
      invariant cur.Some? ==> cur.value in nodes
      invariant cur.Some? && s == [] ==> cur.value == end
      invariant s != [] ==> IsWalk(nodes, s) && s[|s| - 1] == end
      invariant s != [] ==> cur == prev[s[0]]
      invariant cur.Some? && s != [] ==> Edge(nodes, cur.value, s[0]) && dist[cur.value].Finite?
      invariant s != [] ==> forall i | 0 <= i < |s| - 1 :: prev[s[i + 1]] == Some(s[i])
      invariant s != [] ==> dist[s[0]].Finite? && dist[end].Finite? && dist[s[0]].d + WalkWeight(nodes, s) == dist[end].d
      invariant cur.None? ==> s != [] && s[0] != end
      decreases if cur.None? then 0 else 1 + (if cur.value in rank then rank[cur.value] else counter)
    {
      var u1 := cur.value;
      WalkCons(nodes, u1, s);
      if s != [] {
        assert ([u1] + s)[1..] == s;
      }
      s := [u1] + s;
      cur := prev[u1];
    }
  }

  /** A step before a walk extends it. */
  lemma WalkCons(nodes: Grid, u: Node, s: seq<Node>)
    requires u in nodes && (s == [] || (IsWalk(nodes, s) && Edge(nodes, u, s[0])))
    ensures IsWalk(nodes, [u] + s) && ([u] + s)[0] == u
    ensures s != [] ==> ([u] + s)[|s|] == s[|s| - 1]
  {
    var w := [u] + s;
    assert forall i | 1 <= i < |w| :: w[i] == s[i - 1];
  }

  /** When the search ends with no predecessor for `end` and `end` is not
      the start, `end` cannot be reached: the cells at a finite distance are
      closed under steps and `end` is not among them. */
  lemma NoLinkUnreachable(nodes: Grid, start: Node, end: Node, unvisited: set<Node>,
                          dist: map<Node, Dist>, prev: map<Node, Option<Node>>,
                          rank: map<Node, nat>, counter: nat)
    requires SearchInv(nodes, start, end, unvisited, dist, prev, rank, counter)
    requires forall v | v in unvisited :: DistLe(dist[end], dist[v])
    requires prev[end].None? && start != end
    ensures !Reachable(nodes, start, end)
  {
    if Reachable(nodes, start, end) {
      var w :| IsWalk(nodes, w) && w[0] == start && w[|w| - 1] == end;
      assert dist[end].Infinity?;
      var closed := set v | v in nodes && dist[v].Finite?;
      forall a, b | a in closed && Edge(nodes, a, b)
        ensures b in closed
      {
        assert a !in unvisited;
      }
      WalkStaysInClosedSet(nodes, closed, w);
    }
  }

  // ------------------------------------------------------------------- run

  /** The starts whose search succeeds: every cell at elevation 'a' other
      than `end` from which `end` can be reached. */
  ghost predicate Succeeds(nodes: Grid, end: Node, a: Node) {
    a in nodes && nodes[a] == 'a' && a != end && Reachable(nodes, a, end)
  }

  /** `found` holds one search answer for each start in `done` whose search
      succeeds, and nothing else. */
  ghost predicate Searched(nodes: Grid, end: Node, done: set<Node>, found: map<Node, nat>) {
    (forall a :: a in found <==> a in done && Succeeds(nodes, end, a)) &&
    (forall a | a in found :: OptimalHops(nodes, a, end, found[a]))
  }

  /** `best` is the least of the answers, or None when there is none. */
  predicate LeastOf(found: map<Node, nat>, best: Option<nat>) {
    (best.None? <==> found == map[]) &&
    (best.Some? ==> best.value in found.Values && forall a | a in found :: best.value <= found[a])
  }

  lemma SearchedWith(nodes: Grid, end: Node, done: set<Node>, found: map<Node, nat>, a: Node, h: nat)
    requires Searched(nodes, end, done, found) && a !in done
    requires Succeeds(nodes, end, a) && OptimalHops(nodes, a, end, h)
    ensures Searched(nodes, end, done + {a}, found[a := h])
  {
  }

  lemma SearchedWithout(nodes: Grid, end: Node, done: set<Node>, found: map<Node, nat>, a: Node)
    requires Searched(nodes, end, done, found) && a !in done && !Succeeds(nodes, end, a)
    ensures Searched(nodes, end, done + {a}, found)
  {
  }

  /** Adding an answer keeps `best` the least of them. */
  lemma LeastOfWith(found: map<Node, nat>, best: Option<nat>, a: Node, h: nat)
    requires LeastOf(found, best) && a !in found
    ensures LeastOf(found[a := h], if best.None? || h < best.value then Some(h) else best)
  {
    var found' := found[a := h];
    var best' := if best.None? || h < best.value then Some(h) else best;
    assert found'[a] == h;
    forall b | b in found' ensures best'.value <= found'[b] {
      if b != a { assert b in found; }
    }
    if best.Some? {
      var b :| b in found && found[b] == best.value;
      assert found'[b] == best.value;
    }
  }

  /** The search loop of `run`: with the start and end cells rewritten to
      'a' and 'z', search from every cell at elevation 'a' and keep the least
      hop count. None stands for the final `unwrap` failing when no search
      succeeds. `found` maps each start whose search succeeded to its
      answer. */
  method FewestHops(nodes: Grid, end: Node) returns (best: Option<nat>, ghost found: map<Node, nat>)
    requires end in nodes
    ensures Searched(nodes, end, nodes.Keys, found) && LeastOf(found, best)
    ensures best.None? <==> forall a | a in nodes && nodes[a] == 'a' :: a == end || !Reachable(nodes, a, end)
  {
    best := None;
    found := map[];
    var rest := nodes.Keys;
    while rest != {}
      invariant rest <= nodes.Keys
      invariant Searched(nodes, end, nodes.Keys - rest, found) && LeastOf(found, best)
      decreases |rest|
    {
      var a :| a in rest;
      ghost var done := nodes.Keys - rest;
      assert nodes.Keys - (rest - {a}) == done + {a};
      if nodes[a] == 'a' {
        var hops := Dijkstra(nodes, a, end);
        if hops.Some? {
          SearchedWith(nodes, end, done, found, a, hops.value);
          LeastOfWith(found, best, a, hops.value);
          found := found[a := hops.value];
          if best.None? || hops.value < best.value {
            best := Some(hops.value);
          }
        } else {
          SearchedWithout(nodes, end, done, found, a);
        }
      } else {
        SearchedWithout(nodes, end, done, found, a);
      }
      rest := rest - {a};
    }
    if best.None? {
      forall a | a in nodes && nodes[a] == 'a' && a != end
        ensures !Reachable(nodes, a, end)
      {
        assert a !in found;
      }
    } else {
      ghost var a :| a in found;
      assert Succeeds(nodes, end, a);
    }
  }

  /** `run`: find 'S' and 'E' (the source unwraps both), rewrite them to 'a'
      and 'z', and search from every 'a'. */
  method Run(grid: Grid) returns (best: Option<nat>, nodes: Grid, end: Node, ghost found: map<Node, nat>)
    requires exists n | n in grid :: grid[n] == 'S'
    requires exists n | n in grid :: grid[n] == 'E'
    ensures end in grid && grid[end] == 'E'
    ensures exists s | s in grid && grid[s] == 'S' :: nodes == grid[s := 'a'][end := 'z']
    ensures Searched(nodes, end, nodes.Keys, found) && LeastOf(found, best)
    ensures best.None? <==> forall a | a in nodes && nodes[a] == 'a' :: !Reachable(nodes, a, end)
  {
    var s := FindNode(grid, 'S');
    var e := FindNode(grid, 'E');
    end := e.value;
    nodes := grid[s.value := 'a'][end := 'z'];
    best, found := FewestHops(nodes, end);
  }
}
