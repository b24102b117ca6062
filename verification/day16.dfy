/** Day 16, "Proboscidea Volcanium": valves joined by tunnels. The distances
    between all valves are computed once with Floyd–Warshall; then a depth
    first search walks from valve to valve, opening valves with a positive
    flow, and keeps the most pressure released in 30 minutes. */
module Day16Valves {
  import opened Text

  const Minutes: nat := 30

  type ValveId = string

  /** An undirected tunnel between two valves. */
  type Edge = (ValveId, ValveId)

  /** The `dist` map of `DistanceMatrix`: an absent pair is unreachable. */
  type Distances = map<(ValveId, ValveId), nat>

  // ---------------------------------------------------------------- walks

  predicate Adjacent(edges: seq<Edge>, u: ValveId, v: ValveId) {
    (u, v) in edges || (v, u) in edges
  }

  /** A walk along tunnels, one valve after another. */
  ghost predicate IsWalk(edges: seq<Edge>, p: seq<ValveId>) {
    |p| >= 1 && forall t | 0 <= t < |p| - 1 :: Adjacent(edges, p[t], p[t + 1])
  }

  ghost predicate Joins(p: seq<ValveId>, u: ValveId, v: ValveId) {
    |p| >= 1 && p[0] == u && p[|p| - 1] == v
  }

  /** Every valve strictly inside the walk is in `allowed`. */
  ghost predicate InteriorIn(p: seq<ValveId>, allowed: seq<ValveId>) {
    forall t | 0 < t < |p| - 1 :: p[t] in allowed
  }

  /** Some walk from `u` to `v` takes `n` tunnels. */
  ghost predicate HasWalk(edges: seq<Edge>, u: ValveId, v: ValveId, n: nat) {
    exists p :: IsWalk(edges, p) && Joins(p, u, v) && |p| == n + 1
  }

  lemma ReverseWalk(edges: seq<Edge>, p: seq<ValveId>, u: ValveId, v: ValveId)
    requires IsWalk(edges, p) && Joins(p, u, v)
    ensures IsWalk(edges, Reverse(p)) && Joins(Reverse(p), v, u) && |Reverse(p)| == |p|
  {
    var r := Reverse(p);
    forall t | 0 <= t < |r| - 1 ensures Adjacent(edges, r[t], r[t + 1]) {
      assert r[t] == p[|p| - 1 - t] && r[t + 1] == p[|p| - 2 - t];
      assert Adjacent(edges, p[|p| - 2 - t], p[|p| - 1 - t]);
    }
  }

  /** A walk to `k` followed by a walk from `k`. */
  lemma ConcatWalk(edges: seq<Edge>, p: seq<ValveId>, q: seq<ValveId>, u: ValveId, k: ValveId, v: ValveId)
    requires IsWalk(edges, p) && Joins(p, u, k) && IsWalk(edges, q) && Joins(q, k, v)
    ensures IsWalk(edges, p + q[1..]) && Joins(p + q[1..], u, v) && |p + q[1..]| == |p| + |q| - 1
  {
    var w := p + q[1..];
    forall t | 0 <= t < |w| - 1 ensures Adjacent(edges, w[t], w[t + 1]) {
      if t < |p| - 1 {
        assert w[t] == p[t] && w[t + 1] == p[t + 1];
      } else {
        assert w[t] == q[t - |p| + 1] && w[t + 1] == q[t - |p| + 2];
      }
    }
  }

  // ---------------------------------------------------------------- the matrix

  /** `get_`: the entry for (u, v), or else the one for (v, u). */
  function Get(dist: Distances, u: ValveId, v: ValveId): Option<nat> {
    if (u, v) in dist then Some(dist[(u, v)])
    else if (v, u) in dist then Some(dist[(v, u)])
    else None
  }

  /** `Infinitable` order: `a <= b`, where None is infinity. */
  predicate AtMost(a: Option<nat>, b: Option<nat>) {
    b.None? || (a.Some? && a.value <= b.value)
  }

  /** The sum of two distances, infinite when either is. */
  function Plus(a: Option<nat>, b: Option<nat>): Option<nat> {
    if a.Some? && b.Some? then Some(a.value + b.value) else None
  }

  /** `d` is at most the length of every walk from `u` to `v` whose interior
      lies in `allowed`. */
  ghost predicate NoLongerThanWalks(edges: seq<Edge>, allowed: seq<ValveId>, d: Option<nat>, u: ValveId, v: ValveId) {
    forall p | IsWalk(edges, p) && Joins(p, u, v) && InteriorIn(p, allowed) :: AtMost(d, Some(|p| - 1))
  }

  /** The Floyd–Warshall invariant: between any two valves the matrix is no
      longer than any walk through `allowed` valves only. */
  ghost predicate Bounded(edges: seq<Edge>, nodes: seq<ValveId>, allowed: seq<ValveId>, dist: Distances) {
    forall u, v | u in nodes && v in nodes :: NoLongerThanWalks(edges, allowed, Get(dist, u, v), u, v)
  }

  /** Every entry is the length of a walk, recorded in `w`. */
  ghost predicate Witnessed(edges: seq<Edge>, dist: Distances, w: map<(ValveId, ValveId), seq<ValveId>>) {
    forall key | key in dist ::
      key in w && IsWalk(edges, w[key]) && Joins(w[key], key.0, key.1) && |w[key]| == dist[key] + 1
  }

  /** No lookup got longer. */
  ghost predicate Below(dist: Distances, start: Distances) {
    forall u, v :: AtMost(Get(dist, u, v), Get(start, u, v))
  }

  lemma BelowTransitive(a: Distances, b: Distances, c: Distances)
    requires Below(a, b) && Below(b, c)
    ensures Below(a, c)
  {
    forall u, v ensures AtMost(Get(a, u, v), Get(c, u, v)) {
      assert AtMost(Get(a, u, v), Get(b, u, v)) && AtMost(Get(b, u, v), Get(c, u, v));
    }
  }

  lemma BelowSelf(a: Distances)
    ensures Below(a, a)
  {
  }

  /** Writing a shorter (u, v) entry makes no lookup longer. */
  lemma UpdateBelow(dist: Distances, i: ValveId, j: ValveId, s: nat)
    requires AtMost(Some(s), Get(dist, i, j))
    ensures Below(dist[(i, j) := s], dist)
    ensures Get(dist[(i, j) := s], i, j) == Some(s)
  {
    var d := dist[(i, j) := s];
    forall u, v ensures AtMost(Get(d, u, v), Get(dist, u, v)) {
      if (u, v) == (i, j) {
      } else if (v, u) == (i, j) && (u, v) !in dist {
      }
    }
  }

  /** A walk for a lookup, from its entry or the reversed one. */
  lemma GetWitness(edges: seq<Edge>, dist: Distances, w: map<(ValveId, ValveId), seq<ValveId>>, u: ValveId, v: ValveId)
    returns (p: seq<ValveId>)
    requires Witnessed(edges, dist, w) && Get(dist, u, v).Some?
    ensures IsWalk(edges, p) && Joins(p, u, v) && |p| == Get(dist, u, v).value + 1
  {
    if (u, v) in dist {
      p := w[(u, v)];
    } else {
      ReverseWalk(edges, w[(v, u)], v, u);
      p := Reverse(w[(v, u)]);
    }
  }

  lemma UpdateWitnessed(edges: seq<Edge>, dist: Distances, w: map<(ValveId, ValveId), seq<ValveId>>,
                        i: ValveId, j: ValveId, s: nat, p: seq<ValveId>)
    requires Witnessed(edges, dist, w)
    requires IsWalk(edges, p) && Joins(p, i, j) && |p| == s + 1
    ensures Witnessed(edges, dist[(i, j) := s], w[(i, j) := p])
  {
  }

  /** The heart of Floyd–Warshall: once (i, j) has been relaxed through
      `k = nodes[m]`, it is no longer than any walk whose interior lies in
      `nodes[..m + 1]`. Walks that pass through `k` are cut at its first
      and last visit. */
  lemma RelaxedPairBound(edges: seq<Edge>, nodes: seq<ValveId>, m: nat, start: Distances,
                         dist: Distances, d: Option<nat>, i: ValveId, j: ValveId)
    requires m < |nodes| && i in nodes && j in nodes
    requires Bounded(edges, nodes, nodes[..m], start) && Below(dist, start)
    requires AtMost(d, Get(dist, i, j)) && AtMost(d, Plus(Get(dist, i, nodes[m]), Get(dist, nodes[m], j)))
    ensures NoLongerThanWalks(edges, nodes[..m + 1], d, i, j)
  {
    var k := nodes[m];
    forall p | IsWalk(edges, p) && Joins(p, i, j) && InteriorIn(p, nodes[..m + 1])
      ensures AtMost(d, Some(|p| - 1))
    {
      if exists t | 0 < t < |p| - 1 :: p[t] == k {
        var front, back := SplitAtVisits(edges, nodes, m, p, i, j);
        assert AtMost(Get(start, i, k), Some(|front| - 1));
        assert AtMost(Get(start, k, j), Some(|back| - 1));
        assert AtMost(Get(dist, i, k), Get(start, i, k)) && AtMost(Get(dist, k, j), Get(start, k, j));
      } else {
        InteriorWithout(p, nodes, m);
        assert AtMost(Get(start, i, j), Some(|p| - 1));
        assert AtMost(Get(dist, i, j), Get(start, i, j));
      }
    }
  }

  /** A walk through `k = nodes[m]`, cut at the first and the last visit of
      `k`, gives a walk to `k` and one from `k` that avoid `k` inside and
      together are no longer. */
  lemma SplitAtVisits(edges: seq<Edge>, nodes: seq<ValveId>, m: nat, p: seq<ValveId>, i: ValveId, j: ValveId)
    returns (front: seq<ValveId>, back: seq<ValveId>)
    requires m < |nodes|
    requires IsWalk(edges, p) && Joins(p, i, j) && InteriorIn(p, nodes[..m + 1])
    requires exists t | 0 < t < |p| - 1 :: p[t] == nodes[m]
    ensures IsWalk(edges, front) && Joins(front, i, nodes[m]) && InteriorIn(front, nodes[..m])
    ensures IsWalk(edges, back) && Joins(back, nodes[m], j) && InteriorIn(back, nodes[..m])
    ensures |front| + |back| <= |p| + 1
  {
    var k := nodes[m];
    var a := FirstVisit(p, k);
    var b := LastVisit(p, k);
    front, back := p[..a + 1], p[b..];
    assert IsWalk(edges, back) by {
      forall t | 0 <= t < |back| - 1 ensures Adjacent(edges, back[t], back[t + 1]) {
        assert back[t] == p[b + t] && back[t + 1] == p[b + t + 1];
      }
    }
    InteriorWithout(front, nodes, m);
    InteriorWithout(back, nodes, m);
  }

  /** The first visit of `k` strictly inside `p`. */
  lemma FirstVisit(p: seq<ValveId>, k: ValveId) returns (a: nat)
    requires exists t | 0 < t < |p| - 1 :: p[t] == k
    ensures 0 < a < |p| - 1 && p[a] == k
    ensures forall t | 0 < t < a :: p[t] != k
  {
    a := 1;
    while p[a] != k
      invariant 0 < a < |p| - 1
      invariant forall t | 0 < t < a :: p[t] != k
      decreases |p| - a
    {
      a := a + 1;
    }
  }

  /** The last visit of `k` strictly inside `p`. */
  lemma LastVisit(p: seq<ValveId>, k: ValveId) returns (b: nat)
    requires exists t | 0 < t < |p| - 1 :: p[t] == k
    ensures 0 < b < |p| - 1 && p[b] == k
    ensures forall t | b < t < |p| - 1 :: p[t] != k
  {
    b := |p| - 2;
    while p[b] != k
      invariant 0 < b < |p| - 1
      invariant forall t | b < t < |p| - 1 :: p[t] != k
      decreases b
    {
      b := b - 1;
    }
  }

  /** An interior in `nodes[..m + 1]` that avoids `nodes[m]` lies in
      `nodes[..m]`. */
  lemma InteriorWithout(p: seq<ValveId>, nodes: seq<ValveId>, m: nat)
    requires m < |nodes|
    requires forall t | 0 < t < |p| - 1 :: p[t] in nodes[..m + 1] && p[t] != nodes[m]
    ensures InteriorIn(p, nodes[..m])
  {
    forall t | 0 < t < |p| - 1 ensures p[t] in nodes[..m] {
      var x :| 0 <= x < m + 1 && nodes[..m + 1][x] == p[t];
      assert nodes[..m][x] == p[t];
    }
  }

  /** A smaller entry keeps a bound. */
  lemma NoLongerBelow(edges: seq<Edge>, allowed: seq<ValveId>, a: Option<nat>, b: Option<nat>, u: ValveId, v: ValveId)
    requires AtMost(a, b) && NoLongerThanWalks(edges, allowed, b, u, v)
    ensures NoLongerThanWalks(edges, allowed, a, u, v)
  {
  }

  /** The matrix right after the edges and the diagonal are written: its
      entries are walks of one tunnel or of none, and it is no longer than
      any walk with an empty interior. */
  lemma InitBounded(edges: seq<Edge>, nodes: seq<ValveId>, dist: Distances)
    returns (w: map<(ValveId, ValveId), seq<ValveId>>)
    requires forall key :: key in dist <==> key in edges || (key.0 == key.1 && key.0 in nodes)
    requires forall key | key in dist :: dist[key] == if key.0 == key.1 && key.0 in nodes then 0 else 1
    ensures Bounded(edges, nodes, [], dist) && Witnessed(edges, dist, w)
  {
    w := map key | key in dist :: if key.0 == key.1 && key.0 in nodes then [key.0] else [key.0, key.1];
    forall key | key in dist
      ensures key in w && IsWalk(edges, w[key]) && Joins(w[key], key.0, key.1) && |w[key]| == dist[key] + 1
    {
      if !(key.0 == key.1 && key.0 in nodes) {
        assert key in edges;
        assert Adjacent(edges, w[key][0], w[key][1]);
      }
    }
    forall u, v | u in nodes && v in nodes ensures NoLongerThanWalks(edges, [], Get(dist, u, v), u, v) {
      forall p | IsWalk(edges, p) && Joins(p, u, v) && InteriorIn(p, [])
        ensures AtMost(Get(dist, u, v), Some(|p| - 1))
      {
        if |p| > 2 {
          assert p[1] in [];
        } else if |p| == 2 {
          assert Adjacent(edges, p[0], p[1]);
        }
      }
    }
  }

  /** The `dist.insert((u, v), 1)` loop over the tunnels. */
  method InitEdges(edges: seq<Edge>) returns (dist: Distances)
    ensures forall key :: key in dist <==> key in edges
    ensures forall key | key in dist :: dist[key] == 1
  {
    dist := map[];
    for n := 0 to |edges|
      invariant forall key :: key in dist <==> key in edges[..n]
      invariant forall key | key in dist :: dist[key] == 1
    {
      dist := dist[edges[n] := 1];
    }
    assert edges[..|edges|] == edges;
  }

  /** The `dist.insert((v, v), 0)` loop over the valves. */
  method InitDiagonal(nodes: seq<ValveId>, start: Distances) returns (dist: Distances)
    ensures forall key :: key in dist <==> key in start || (key.0 == key.1 && key.0 in nodes)
    ensures forall key | key in dist ::
      dist[key] == if key.0 == key.1 && key.0 in nodes then 0 else start[key]
  {
    dist := start;
    for n := 0 to |nodes|
      invariant forall key :: key in dist <==> key in start || (key.0 == key.1 && key.0 in nodes[..n])
      invariant forall key | key in dist ::
        dist[key] == if key.0 == key.1 && key.0 in nodes[..n] then 0 else start[key]
    {
      assert forall x :: x in nodes[..n + 1] <==> x in nodes[..n] || x == nodes[n];
      dist := dist[(nodes[n], nodes[n]) := 0];
    }
    assert nodes[..|nodes|] == nodes;
  }

  /** One relaxation `d(i, j) := d(i, k) + d(k, j)` when that is shorter. */
  method Relax(edges: seq<Edge>, i: ValveId, k: ValveId, j: ValveId, dist: Distances,
               ghost w: map<(ValveId, ValveId), seq<ValveId>>)
    returns (dist': Distances, ghost w': map<(ValveId, ValveId), seq<ValveId>>)
    requires Witnessed(edges, dist, w)
    ensures Witnessed(edges, dist', w') && Below(dist', dist)
    ensures AtMost(Get(dist', i, j), Get(dist, i, j))
    ensures AtMost(Get(dist', i, j), Plus(Get(dist, i, k), Get(dist, k, j)))
  {
    var dik := Get(dist, i, k);
    var dkj := Get(dist, k, j);
    var dij := Get(dist, i, j);
    var sum := Plus(dik, dkj);
    if !AtMost(dij, sum) {
      var p := GetWitness(edges, dist, w, i, k);
      var q := GetWitness(edges, dist, w, k, j);
      ConcatWalk(edges, p, q, i, k, j);
      UpdateWitnessed(edges, dist, w, i, j, sum.value, p + q[1..]);
      UpdateBelow(dist, i, j, sum.value);
      dist', w' := dist[(i, j) := sum.value], w[(i, j) := p + q[1..]];
    } else {
      BelowSelf(dist);
      dist', w' := dist, w;
    }
  }

  /** The innermost `j` loop for fixed `k = nodes[m]` and `i`. */
  method RelaxRow(edges: seq<Edge>, nodes: seq<ValveId>, m: nat, i: ValveId, dist: Distances,
                  ghost start: Distances, ghost w: map<(ValveId, ValveId), seq<ValveId>>)
    returns (dist': Distances, ghost w': map<(ValveId, ValveId), seq<ValveId>>)
    requires m < |nodes| && i in nodes
    requires Bounded(edges, nodes, nodes[..m], start) && Below(dist, start) && Witnessed(edges, dist, w)
    ensures Below(dist', dist) && Witnessed(edges, dist', w')
    ensures forall j | j in nodes :: NoLongerThanWalks(edges, nodes[..m + 1], Get(dist', i, j), i, j)
  {
    dist', w' := dist, w;
    BelowSelf(dist);
    for n := 0 to |nodes|
      invariant Below(dist', dist) && Witnessed(edges, dist', w')
      invariant forall j | j in nodes[..n] :: NoLongerThanWalks(edges, nodes[..m + 1], Get(dist', i, j), i, j)
    {
      var before := dist';
      BelowTransitive(before, dist, start);
      dist', w' := Relax(edges, i, nodes[m], nodes[n], before, w');
      RelaxedPairBound(edges, nodes, m, start, before, Get(dist', i, nodes[n]), i, nodes[n]);
      BelowTransitive(dist', before, dist);
      RowGrows(edges, nodes, n, nodes[..m + 1], before, dist', i);
    }
    assert nodes[..|nodes|] == nodes;
  }

  /** After relaxing (i, nodes[n]) the row is bounded one valve further. */
  lemma RowGrows(edges: seq<Edge>, nodes: seq<ValveId>, n: nat, allowed: seq<ValveId>,
                 before: Distances, after: Distances, i: ValveId)
    requires n < |nodes| && Below(after, before)
    requires forall j | j in nodes[..n] :: NoLongerThanWalks(edges, allowed, Get(before, i, j), i, j)
    requires NoLongerThanWalks(edges, allowed, Get(after, i, nodes[n]), i, nodes[n])
    ensures forall j | j in nodes[..n + 1] :: NoLongerThanWalks(edges, allowed, Get(after, i, j), i, j)
  {
    forall j | j in nodes[..n + 1]
      ensures NoLongerThanWalks(edges, allowed, Get(after, i, j), i, j)
    {
      if j != nodes[n] {
        assert j in nodes[..n];
        NoLongerBelow(edges, allowed, Get(after, i, j), Get(before, i, j), i, j);
      }
    }
  }

  /** The `i` loop for fixed `k = nodes[m]`: afterwards the matrix is no
      longer than any walk through `nodes[..m + 1]`. */
  method RelaxThrough(edges: seq<Edge>, nodes: seq<ValveId>, m: nat, dist: Distances,
                      ghost w: map<(ValveId, ValveId), seq<ValveId>>)
    returns (dist': Distances, ghost w': map<(ValveId, ValveId), seq<ValveId>>)
    requires m < |nodes|
    requires Bounded(edges, nodes, nodes[..m], dist) && Witnessed(edges, dist, w)
    ensures Bounded(edges, nodes, nodes[..m + 1], dist') && Witnessed(edges, dist', w')
  {
    dist', w' := dist, w;
    BelowSelf(dist);
    for n := 0 to |nodes|
      invariant Below(dist', dist) && Witnessed(edges, dist', w')
      invariant forall u, v | u in nodes[..n] && v in nodes ::
        NoLongerThanWalks(edges, nodes[..m + 1], Get(dist', u, v), u, v)
    {
      var before := dist';
      dist', w' := RelaxRow(edges, nodes, m, nodes[n], before, dist, w');
      BelowTransitive(dist', before, dist);
      forall u, v | u in nodes[..n + 1] && v in nodes
        ensures NoLongerThanWalks(edges, nodes[..m + 1], Get(dist', u, v), u, v)
      {
        if u != nodes[n] {
          assert u in nodes[..n];
          NoLongerBelow(edges, nodes[..m + 1], Get(dist', u, v), Get(before, u, v), u, v);
        }
      }
    }
    assert nodes[..|nodes|] == nodes;
  }

  /** The matrix holds shortest distances: no longer than any walk, and
      each entry the length of one. An absent pair has no walk at all. */
  ghost predicate Shortest(edges: seq<Edge>, nodes: seq<ValveId>, dist: Distances) {
    forall u, v | u in nodes && v in nodes ::
      NoLongerThanWalks(edges, nodes, Get(dist, u, v), u, v)
      && (Get(dist, u, v).Some? ==> HasWalk(edges, u, v, Get(dist, u, v).value))
  }

  /** `DistanceMatrix::from_graph`: Floyd–Warshall over the valves, with every
      tunnel one minute long. */
  method FromGraph(nodes: seq<ValveId>, edges: seq<Edge>) returns (dist: Distances)
    requires forall e | e in edges :: e.0 in nodes && e.1 in nodes
    ensures Shortest(edges, nodes, dist)
  {
    dist := InitEdges(edges);
    dist := InitDiagonal(nodes, dist);
    ghost var w := InitBounded(edges, nodes, dist);
    assert nodes[..0] == [];
    for m := 0 to |nodes|
      invariant Bounded(edges, nodes, nodes[..m], dist) && Witnessed(edges, dist, w)
    {
      dist, w := RelaxThrough(edges, nodes, m, dist, w);
    }
    assert nodes[..|nodes|] == nodes;
    forall u, v | u in nodes && v in nodes
      ensures Get(dist, u, v).Some? ==> HasWalk(edges, u, v, Get(dist, u, v).value)
    {
      if Get(dist, u, v).Some? {
        var p := GetWitness(edges, dist, w, u, v);
      }
    }
  }

  // ---------------------------------------------------------------- what the matrix means

  /** With every tunnel between known valves, a walk never leaves them. */
  lemma WalkInNodes(edges: seq<Edge>, nodes: seq<ValveId>, p: seq<ValveId>)
    requires forall e | e in edges :: e.0 in nodes && e.1 in nodes
    requires IsWalk(edges, p)
    ensures InteriorIn(p, nodes)
  {
    forall t | 0 < t < |p| - 1 ensures p[t] in nodes {
      assert Adjacent(edges, p[t], p[t + 1]);
    }
  }

  /** The shortest distance from a valve to itself is 0. */
  lemma DiagonalZero(edges: seq<Edge>, nodes: seq<ValveId>, dist: Distances, v: ValveId)
    requires Shortest(edges, nodes, dist) && v in nodes
    ensures Get(dist, v, v) == Some(0)
  {
    assert IsWalk(edges, [v]) && Joins([v], v, v) && InteriorIn([v], nodes);
  }

  /** Neighbouring valves are one minute apart. */
  lemma NeighboursOneApart(edges: seq<Edge>, nodes: seq<ValveId>, dist: Distances, u: ValveId, v: ValveId)
    requires Shortest(edges, nodes, dist) && u in nodes && v in nodes
    requires Adjacent(edges, u, v) && u != v
    ensures Get(dist, u, v) == Some(1)
  {
    var p := [u, v];
    assert IsWalk(edges, p) && Joins(p, u, v) && InteriorIn(p, nodes);
    assert Get(dist, u, v).Some?;
    var q :| IsWalk(edges, q) && Joins(q, u, v) && |q| == Get(dist, u, v).value + 1;
  }

  /** An absent pair means unreachable: no walk joins the two valves. */
  lemma AbsentMeansUnreachable(edges: seq<Edge>, nodes: seq<ValveId>, dist: Distances, u: ValveId, v: ValveId)
    requires forall e | e in edges :: e.0 in nodes && e.1 in nodes
    requires Shortest(edges, nodes, dist) && u in nodes && v in nodes
    ensures Get(dist, u, v).None? <==> !exists n: nat :: HasWalk(edges, u, v, n)
  {
    if Get(dist, u, v).None? {
      forall n: nat | HasWalk(edges, u, v, n) ensures false {
        var p :| IsWalk(edges, p) && Joins(p, u, v) && |p| == n + 1;
        WalkInNodes(edges, nodes, p);
      }
    } else {
      assert HasWalk(edges, u, v, Get(dist, u, v).value);
    }
  }

  /** `get(u, v) == get(v, u)`: walks can be taken backwards. */
  lemma Symmetric(edges: seq<Edge>, nodes: seq<ValveId>, dist: Distances, u: ValveId, v: ValveId)
    requires forall e | e in edges :: e.0 in nodes && e.1 in nodes
    requires Shortest(edges, nodes, dist) && u in nodes && v in nodes
    ensures Get(dist, u, v) == Get(dist, v, u)
  {
    OneWay(edges, nodes, dist, u, v);
    OneWay(edges, nodes, dist, v, u);
  }

  lemma OneWay(edges: seq<Edge>, nodes: seq<ValveId>, dist: Distances, u: ValveId, v: ValveId)
    requires forall e | e in edges :: e.0 in nodes && e.1 in nodes
    requires Shortest(edges, nodes, dist) && u in nodes && v in nodes
    ensures AtMost(Get(dist, v, u), Get(dist, u, v))
  {
    if Get(dist, u, v).Some? {
      var p :| IsWalk(edges, p) && Joins(p, u, v) && |p| == Get(dist, u, v).value + 1;
      ReverseWalk(edges, p, u, v);
      WalkInNodes(edges, nodes, Reverse(p));
    }
  }

  /** The triangle inequality: d(i, j) <= d(i, k) + d(k, j) whenever the right
      side is defined. */
  lemma Triangle(edges: seq<Edge>, nodes: seq<ValveId>, dist: Distances, i: ValveId, k: ValveId, j: ValveId)
    requires forall e | e in edges :: e.0 in nodes && e.1 in nodes
    requires Shortest(edges, nodes, dist) && i in nodes && k in nodes && j in nodes
    ensures AtMost(Get(dist, i, j), Plus(Get(dist, i, k), Get(dist, k, j)))
  {
    if Get(dist, i, k).Some? && Get(dist, k, j).Some? {
      var p :| IsWalk(edges, p) && Joins(p, i, k) && |p| == Get(dist, i, k).value + 1;
      var q :| IsWalk(edges, q) && Joins(q, k, j) && |q| == Get(dist, k, j).value + 1;
      ConcatWalk(edges, p, q, i, k, j);
      WalkInNodes(edges, nodes, p + q[1..]);
    }
  }

  // ---------------------------------------------------------------- the search

  /** What the search reads: the valves in graph order, the distance matrix
      and every valve's flow rate. */
  datatype Cave = Cave(nodes: seq<ValveId>, dist: Distances, flowRates: map<ValveId, nat>)

  /** A search state. The open valves are kept in opening order; they never
      repeat, so the list stands for the source's set. */
  datatype State = State(openValves: seq<ValveId>, currentValve: ValveId, releasedPressure: nat, timeLeft: nat)

  /** `State::new`: at valve AA with nothing open and 30 minutes left. */
  function New(): State {
    State([], "AA", 0, Minutes)
  }

  function Max(a: nat, b: nat): nat { if a <= b then b else a }

  /** The pressure released per minute by the open valves. */
  function Flow(open: seq<ValveId>, flowRates: map<ValveId, nat>): nat
    requires forall v | v in open :: v in flowRates
  {
    if open == [] then 0 else Flow(open[..|open| - 1], flowRates) + flowRates[open[|open| - 1]]
  }

  /** Opening one more valve adds its rate to the flow. */
  lemma FlowSnoc(open: seq<ValveId>, v: ValveId, flowRates: map<ValveId, nat>)
    requires forall x | x in open + [v] :: x in flowRates
    ensures Flow(open + [v], flowRates) == Flow(open, flowRates) + flowRates[v]
  {
    assert (open + [v])[..|open|] == open;
  }

  /** `increase_released_pressure`: `time` minutes of the current flow. */
  function IncreaseReleasedPressure(s: State, time: nat, flowRates: map<ValveId, nat>): (r: State)
    requires forall v | v in s.openValves :: v in flowRates
    ensures r.releasedPressure >= s.releasedPressure
    ensures r.(releasedPressure := s.releasedPressure) == s
    ensures r.releasedPressure - s.releasedPressure == Flow(s.openValves, flowRates) * time
  {
    s.(releasedPressure := s.releasedPressure + Flow(s.openValves, flowRates) * time)
  }

  /** Every valve has a flow rate. */
  predicate Known(c: Cave) {
    forall v | v in c.nodes :: v in c.flowRates
  }

  /** A valve worth opening: it has a positive flow rate. */
  predicate Worth(c: Cave, v: ValveId) {
    v in c.flowRates && c.flowRates[v] > 0
  }

  /** A target of `next_states`: another valve, still closed and worth opening. */
  predicate Target(c: Cave, s: State, v: ValveId) {
    v !in s.openValves && Worth(c, v) && v != s.currentValve
  }

  /** The `unwrap` of the distance never fails from this state. */
  predicate Reaches(c: Cave, s: State) {
    forall v | v in c.nodes && Target(c, s, v) :: Get(c.dist, s.currentValve, v).Some?
  }

  /** What `next_states` needs: every open valve and every valve has a flow
      rate, and each target is reachable. */
  predicate Ready(c: Cave, s: State) {
    Known(c) && (forall v | v in s.openValves :: v in c.flowRates) && Reaches(c, s)
  }

  /** The cave the whole search runs in: besides every flow rate, each valve
      worth opening can reach each other one. */
  predicate WellFormed(c: Cave) {
    Known(c) && forall u, v | u in c.nodes && v in c.nodes && Worth(c, u) && Worth(c, v) && u != v ::
      Get(c.dist, u, v).Some?
  }

  /** The trip to `v` ends before the time runs out. */
  predicate Fits(c: Cave, s: State, v: ValveId)
    requires Ready(c, s) && v in c.nodes && Target(c, s, v)
  {
    Get(c.dist, s.currentValve, v).value + 1 < s.timeLeft
  }

  /** Going to `v` and opening it: the trip and the opening take
      `distance + 1` minutes, during which only the valves open before
      release pressure. */
  function MoveTo(c: Cave, s: State, v: ValveId): State
    requires Ready(c, s) && v in c.nodes && Target(c, s, v) && Fits(c, s, v)
  {
    var d := Get(c.dist, s.currentValve, v).value;
    var walked := IncreaseReleasedPressure(s.(timeLeft := s.timeLeft - (d + 1)), d + 1, c.flowRates);
    walked.(currentValve := v, openValves := s.openValves + [v])
  }

  /** The moves to the valves of `vs`, in their order. */
  function Moves(c: Cave, s: State, vs: seq<ValveId>): (r: seq<State>)
    requires Ready(c, s) && forall v | v in vs :: v in c.nodes
    ensures |r| <= |vs|
    ensures forall n | n in r :: n.timeLeft < s.timeLeft && n.releasedPressure >= s.releasedPressure
  {
    if vs == [] then []
    else
      var v := vs[|vs| - 1];
      Moves(c, s, vs[..|vs| - 1]) + if Target(c, s, v) && Fits(c, s, v) then [MoveTo(c, s, v)] else []
  }

  lemma MovesSnoc(c: Cave, s: State, n: nat)
    requires Ready(c, s) && n < |c.nodes|
    ensures var v := c.nodes[n];
            Moves(c, s, c.nodes[..n + 1])
            == Moves(c, s, c.nodes[..n]) + if Target(c, s, v) && Fits(c, s, v) then [MoveTo(c, s, v)] else []
  {
    assert c.nodes[..n + 1][..n] == c.nodes[..n];
  }

  /** Waiting out the remaining minutes with the valves that are open. */
  function Wait(c: Cave, s: State): State
    requires Ready(c, s)
  {
    IncreaseReleasedPressure(s, s.timeLeft, c.flowRates).(timeLeft := 0)
  }

  /** The states `next_states` returns. */
  function Successors(c: Cave, s: State): (r: seq<State>)
    requires Ready(c, s)
    ensures forall n | n in r :: n.timeLeft < s.timeLeft && n.releasedPressure >= s.releasedPressure
  {
    var moves := Moves(c, s, c.nodes);
    if moves == [] && s.timeLeft > 0 then [Wait(c, s)] else moves
  }

  /** `State::next_states`: the loop over the valves, then the wait. */
  method NextStates(c: Cave, s: State) returns (next: seq<State>)
    requires Ready(c, s)
    ensures next == Successors(c, s)
  {
    next := [];
    for n := 0 to |c.nodes|
      invariant next == Moves(c, s, c.nodes[..n])
    {
      MovesSnoc(c, s, n);
      var move := MoveIfPossible(c, s, c.nodes[n]);
      next := next + move;
    }
    assert c.nodes[..|c.nodes|] == c.nodes;
    if next == [] && s.timeLeft > 0 {
      var nextState := IncreaseReleasedPressure(s, s.timeLeft, c.flowRates);
      nextState := nextState.(timeLeft := 0);
      next := next + [nextState];
    }
  }

  /** The body of the loop in `next_states`: the move to `v`, if `v` passes
      the three filters and the trip fits. */
  method MoveIfPossible(c: Cave, s: State, v: ValveId) returns (move: seq<State>)
    requires Ready(c, s) && v in c.nodes
    ensures move == if Target(c, s, v) && Fits(c, s, v) then [MoveTo(c, s, v)] else []
  {
    if v in s.openValves || c.flowRates[v] <= 0 || v == s.currentValve {
      return [];
    }
    var distance := Get(c.dist, s.currentValve, v).value;
    if distance + 1 >= s.timeLeft {
      return [];
    }
    var nextState := s.(timeLeft := s.timeLeft - (distance + 1));
    nextState := IncreaseReleasedPressure(nextState, distance + 1, c.flowRates);
    nextState := nextState.(currentValve := v, openValves := s.openValves + [v]);
    return [nextState];
  }

  /** The moves are exactly the trips to the valves of `vs` that are targets
      and fit in the remaining time. */
  lemma {:induction false} MovesMembers(c: Cave, s: State, vs: seq<ValveId>, n: State)
    requires Ready(c, s) && forall v | v in vs :: v in c.nodes
    ensures n in Moves(c, s, vs) <==>
            exists v | v in vs && v in c.nodes :: Target(c, s, v) && Fits(c, s, v) && n == MoveTo(c, s, v)
  {
    if vs != [] {
      var front, v := vs[..|vs| - 1], vs[|vs| - 1];
      assert forall x | x in vs :: x in front || x == v;
      MovesMembers(c, s, front, n);
    }
  }

  /** What a move does: `distance + 1` minutes pass, the valves open before
      the move release pressure for all of them, and only then is `v`
      opened, adding its rate to the flow. */
  lemma MoveEffect(c: Cave, s: State, v: ValveId)
    requires Ready(c, s) && v in c.nodes && Target(c, s, v) && Fits(c, s, v)
    ensures var d := Get(c.dist, s.currentValve, v).value;
            var n := MoveTo(c, s, v);
            && n.timeLeft + d + 1 == s.timeLeft
            && n.releasedPressure == s.releasedPressure + Flow(s.openValves, c.flowRates) * (d + 1)
            && n.currentValve == v && v !in s.openValves && n.openValves == s.openValves + [v]
            && Flow(n.openValves, c.flowRates) == Flow(s.openValves, c.flowRates) + c.flowRates[v]
            && c.flowRates[v] > 0
  {
    FlowSnoc(s.openValves, v, c.flowRates);
  }

  /** Nothing follows a state only when its time is up: with time left there
      is a move, or else the single wait. */
  lemma SuccessorsEnd(c: Cave, s: State)
    requires Ready(c, s)
    ensures Successors(c, s) == [] <==> s.timeLeft == 0
    ensures s.timeLeft > 0 && (forall v | v in c.nodes && Target(c, s, v) :: !Fits(c, s, v)) ==>
              Successors(c, s) == [Wait(c, s)]
  {
    var moves := Moves(c, s, c.nodes);
    if moves != [] {
      assert moves[0] in moves;
      if forall v | v in c.nodes && Target(c, s, v) :: !Fits(c, s, v) {
        MovesMembers(c, s, c.nodes, moves[0]);
      }
    }
  }

  /** The wait releases the current flow for all remaining minutes. */
  lemma WaitEffect(c: Cave, s: State)
    requires Ready(c, s)
    ensures Wait(c, s).timeLeft == 0
    ensures Wait(c, s).releasedPressure == s.releasedPressure + Flow(s.openValves, c.flowRates) * s.timeLeft
    ensures Wait(c, s).openValves == s.openValves && Wait(c, s).currentValve == s.currentValve
  {
  }

  /** In a well-formed cave every successor can be searched in turn. */
  lemma SuccessorsReady(c: Cave, s: State)
    requires WellFormed(c) && Ready(c, s)
    ensures Searchable(c, Successors(c, s), s.timeLeft)
  {
    forall n | n in Moves(c, s, c.nodes) ensures Ready(c, n) {
      MovesMembers(c, s, c.nodes, n);
      var v :| v in c.nodes && Target(c, s, v) && Fits(c, s, v) && n == MoveTo(c, s, v);
      forall x | x in c.nodes && Target(c, n, x) ensures Get(c.dist, n.currentValve, x).Some? {
        assert Worth(c, v) && Worth(c, x) && v != x;
      }
    }
  }

  /** The open valves never repeat and are all worth opening. */
  ghost predicate Opened(c: Cave, s: State) {
    (forall i, j | 0 <= i < j < |s.openValves| :: s.openValves[i] != s.openValves[j])
    && forall v | v in s.openValves :: Worth(c, v)
  }

  lemma SuccessorsOpened(c: Cave, s: State)
    requires Ready(c, s) && Opened(c, s)
    ensures forall n | n in Successors(c, s) :: Opened(c, n)
  {
    forall n | n in Moves(c, s, c.nodes) ensures Opened(c, n) {
      MovesMembers(c, s, c.nodes, n);
      var v :| v in c.nodes && Target(c, s, v) && Fits(c, s, v) && n == MoveTo(c, s, v);
      assert n.openValves == s.openValves + [v];
    }
  }

  // ---------------------------------------------------------------- run_simulation

  /** The most pressure any sequence of successors releases: the maximum
      over the successors, or the released pressure when there are none. */
  function MaxPressure(c: Cave, s: State): nat
    requires WellFormed(c) && Ready(c, s)
    decreases s.timeLeft, 1
  {
    var next := Successors(c, s);
    SuccessorsReady(c, s);
    if next == [] then s.releasedPressure else MaxOf(c, next, s.timeLeft)
  }

  /** Every state of the list can be searched and has less than `bound`
      minutes left. */
  predicate Searchable(c: Cave, states: seq<State>, bound: nat) {
    forall n | n in states :: Ready(c, n) && n.timeLeft < bound
  }

  /** `states[i]`, with what a search of it needs. */
  function StateAt(c: Cave, states: seq<State>, bound: nat, i: nat): (s: State)
    requires Searchable(c, states, bound) && i < |states|
    ensures s == states[i] && Ready(c, s) && s.timeLeft < bound
  {
    states[i]
  }

  lemma SearchablePrefix(c: Cave, states: seq<State>, bound: nat, i: nat)
    requires Searchable(c, states, bound) && i <= |states|
    ensures Searchable(c, states[..i], bound)
  {
  }

  function MaxOf(c: Cave, states: seq<State>, bound: nat): nat
    requires WellFormed(c) && Searchable(c, states, bound)
    decreases bound, 0, |states|
  {
    if states == [] then 0
    else if |states| == 1 then MaxPressure(c, states[0])
    else Max(MaxOf(c, states[..|states| - 1], bound), MaxPressure(c, states[|states| - 1]))
  }

  /** The number of states `run_simulation` visits from `s`, itself included. */
  function Explored(c: Cave, s: State): nat
    requires WellFormed(c) && Ready(c, s)
    decreases s.timeLeft, 1
  {
    SuccessorsReady(c, s);
    1 + ExploredOf(c, Successors(c, s), s.timeLeft)
  }

  function ExploredOf(c: Cave, states: seq<State>, bound: nat): nat
    requires WellFormed(c) && Searchable(c, states, bound)
    decreases bound, 0, |states|
  {
    if states == [] then 0
    else ExploredOf(c, states[..|states| - 1], bound) + Explored(c, states[|states| - 1])
  }

  lemma MaxOfSnoc(c: Cave, states: seq<State>, i: nat, bound: nat)
    requires WellFormed(c) && Searchable(c, states, bound)
    requires i < |states|
    ensures MaxOf(c, states[..i + 1], bound)
            == if i == 0 then MaxPressure(c, states[0])
               else Max(MaxOf(c, states[..i], bound), MaxPressure(c, states[i]))
    ensures ExploredOf(c, states[..i + 1], bound) == ExploredOf(c, states[..i], bound) + Explored(c, states[i])
  {
    var prefix := states[..i + 1];
    assert prefix[..i] == states[..i] && prefix[i] == states[i];
  }

  /** The invariant of `RunAll` after searching `states[..i]`. */
  ghost predicate SearchedSoFar(c: Cave, states: seq<State>, bound: nat, i: nat, best: nat, explored: nat, explored': nat)
    requires WellFormed(c) && Searchable(c, states, bound) && i <= |states|
  {
    (i > 0 ==> best == MaxOf(c, states[..i], bound))
    && explored' == explored + ExploredOf(c, states[..i], bound)
  }

  /** One iteration of `RunAll` keeps its invariant. */
  lemma RunStep(c: Cave, states: seq<State>, bound: nat, i: nat, explored: nat,
                best: nat, p: nat, exploredBefore: nat, e: nat)
    requires WellFormed(c) && Searchable(c, states, bound) && i < |states|
    requires SearchedSoFar(c, states, bound, i, best, explored, exploredBefore)
    requires p == MaxPressure(c, states[i]) && e == exploredBefore + Explored(c, states[i])
    ensures SearchedSoFar(c, states, bound, i + 1, if i == 0 then p else Max(best, p), explored, e)
  {
    MaxOfSnoc(c, states, i, bound);
  }

  /** `max`: no state beats the maximum, and some state reaches it. */
  lemma {:induction false} MaxOfIsMax(c: Cave, states: seq<State>, bound: nat) returns (k: nat)
    requires WellFormed(c) && Searchable(c, states, bound)
    requires states != []
    ensures forall i | 0 <= i < |states| :: MaxPressure(c, states[i]) <= MaxOf(c, states, bound)
    ensures k < |states| && MaxOf(c, states, bound) == MaxPressure(c, states[k])
  {
    if |states| == 1 {
      k := 0;
    } else {
      var front := states[..|states| - 1];
      k := MaxOfIsMax(c, front, bound);
      if MaxOf(c, front, bound) < MaxPressure(c, states[|states| - 1]) {
        k := |states| - 1;
      }
      forall i | 0 <= i < |states| ensures MaxPressure(c, states[i]) <= MaxOf(c, states, bound) {
        if i < |states| - 1 {
          assert states[i] == front[i];
        }
      }
    }
  }

  /** Waiting is always possible, so the best found is at least what the
      open valves release by themselves in the remaining minutes. */
  lemma {:induction false} AtLeastWaiting(c: Cave, s: State)
    requires WellFormed(c) && Ready(c, s)
    ensures MaxPressure(c, s) >= s.releasedPressure + Flow(s.openValves, c.flowRates) * s.timeLeft
    decreases s.timeLeft
  {
    var next := Successors(c, s);
    SuccessorsEnd(c, s);
    SuccessorsReady(c, s);
    if next != [] {
      var n := next[0];
      var _ := MaxOfIsMax(c, next, s.timeLeft);
      assert MaxPressure(c, s) >= MaxPressure(c, n);
      AtLeastWaiting(c, n);
      SuccessorAtLeastWaiting(c, s, n);
    }
  }

  /** One step of `AtLeastWaiting`: a successor that waits from then on
      releases at least as much as waiting now. */
  lemma SuccessorAtLeastWaiting(c: Cave, s: State, n: State)
    requires Ready(c, s) && n in Successors(c, s)
    ensures forall x | x in n.openValves :: x in c.flowRates
    ensures n.releasedPressure + Flow(n.openValves, c.flowRates) * n.timeLeft
            >= s.releasedPressure + Flow(s.openValves, c.flowRates) * s.timeLeft
  {
    if n in Moves(c, s, c.nodes) {
      MovesMembers(c, s, c.nodes, n);
      var v :| v in c.nodes && Target(c, s, v) && Fits(c, s, v) && n == MoveTo(c, s, v);
      MoveAtLeastWaiting(c, s, v);
    } else {
      WaitEffect(c, s);
    }
  }

  lemma MoveAtLeastWaiting(c: Cave, s: State, v: ValveId)
    requires Ready(c, s) && v in c.nodes && Target(c, s, v) && Fits(c, s, v)
    ensures forall x | x in MoveTo(c, s, v).openValves :: x in c.flowRates
    ensures var n := MoveTo(c, s, v);
            n.releasedPressure + Flow(n.openValves, c.flowRates) * n.timeLeft
            >= s.releasedPressure + Flow(s.openValves, c.flowRates) * s.timeLeft
  {
    var n := MoveTo(c, s, v);
    var f := Flow(s.openValves, c.flowRates);
    MoveEffect(c, s, v);
    var d := Get(c.dist, s.currentValve, v).value;
    MulMonotone(f, Flow(n.openValves, c.flowRates), n.timeLeft);
    MulSplit(f, d + 1, n.timeLeft);
  }

  lemma MulSplit(f: nat, a: nat, b: nat)
    ensures f * a + f * b == f * (a + b)
  {
  }

  lemma MulMonotone(a: nat, b: nat, t: nat)
    requires a <= b
    ensures a * t <= b * t
  {
  }

  /** `run_simulation`: counts the state, then takes the best over its
      successors, or its own released pressure when there are none. */
  method RunSimulation(c: Cave, s: State, explored: nat) returns (pressure: nat, explored': nat)
    requires WellFormed(c) && Ready(c, s)
    ensures pressure == MaxPressure(c, s)
    ensures explored' == explored + Explored(c, s)
    decreases s.timeLeft, 1
  {
    explored' := explored + 1;
    var next := NextStates(c, s);
    SuccessorsReady(c, s);
    if next == [] {
      pressure := s.releasedPressure;
    } else {
      pressure, explored' := RunAll(c, next, s.timeLeft, explored');
    }
  }

  /** The `map(run_simulation).max()` over the successors, in order. */
  method RunAll(c: Cave, states: seq<State>, bound: nat, explored: nat) returns (best: nat, explored': nat)
    requires WellFormed(c) && Searchable(c, states, bound)
    requires states != []
    ensures best == MaxOf(c, states, bound)
    ensures explored' == explored + ExploredOf(c, states, bound)
    decreases bound, 0
  {
    explored' := explored;
    best := 0;
    for i := 0 to |states|
      invariant SearchedSoFar(c, states, bound, i, best, explored, explored')
    {
      ghost var bestBefore, exploredBefore := best, explored';
      var p, e := RunSimulation(c, StateAt(c, states, bound, i), explored');
      best, explored' := if i == 0 then p else Max(best, p), e;
      RunStep(c, states, bound, i, explored, bestBefore, p, exploredBefore, e);
    }
    assert states[..|states|] == states;
  }
}
