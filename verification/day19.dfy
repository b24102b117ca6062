/** Day 19, "Not Enough Minerals": robots that mine ore, clay and obsidian
    and crack geodes. Every minute the factory may build one robot, paid
    from the stock, while every existing robot collects one unit; a depth
    first search over these choices finds the most geodes cracked in 24
    minutes. */
module Day19Minerals {
  import opened Text

  const TotalMinutes: nat := 24

  /** The costs read from one blueprint line; parsing it is not part of
      this model. */
  datatype Blueprint = Blueprint(
    oreRobotCost: nat,
    clayRobotCost: nat,
    obsidianRobotCost: (nat, nat),  // (ore, clay)
    geodeRobotCost: (nat, nat)      // (ore, obsidian)
  )

  function Max(a: nat, b: nat): (m: nat)
    ensures m >= a && m >= b && (m == a || m == b)
  {
    if a >= b then a else b
  }

  /** `max_ore_cost`: the largest ore cost of the four robots. */
  function MaxOreCost(b: Blueprint): (m: nat)
    ensures m >= b.oreRobotCost && m >= b.clayRobotCost
    ensures m >= b.obsidianRobotCost.0 && m >= b.geodeRobotCost.0
    ensures m in {b.oreRobotCost, b.clayRobotCost, b.obsidianRobotCost.0, b.geodeRobotCost.0}
  {
    Max(Max(Max(b.oreRobotCost, b.clayRobotCost), b.obsidianRobotCost.0), b.geodeRobotCost.0)
  }

  /** The robots, the stock, the geodes cracked so far, and the caps
      beyond which more robots of a kind are useless. */
  datatype State = State(
    oreRobots: nat,
    clayRobots: nat,
    obsidianRobots: nat,
    geodeRobots: nat,
    ore: nat,
    clay: nat,
    obsidian: nat,
    crackedGeodes: nat,
    maxOreNeeded: nat,
    maxClayNeeded: nat,
    maxObsidianNeeded: nat
  )

  /** The caps of a state are those of its blueprint: the largest ore cost,
      the clay cost of an obsidian robot and the obsidian cost of a geode
      robot. */
  predicate Caps(b: Blueprint, s: State) {
    s.maxOreNeeded == MaxOreCost(b)
    && s.maxClayNeeded == b.obsidianRobotCost.1
    && s.maxObsidianNeeded == b.geodeRobotCost.1
  }

  /** `State::from_blueprint`: one ore robot, nothing else. */
  function FromBlueprint(b: Blueprint): (s: State)
    ensures Caps(b, s)
    ensures Robots(s) == (1, 0, 0, 0) && Stock(s) == (0, 0, 0) && s.crackedGeodes == 0
  {
    State(1, 0, 0, 0, 0, 0, 0, 0, MaxOreCost(b), b.obsidianRobotCost.1, b.geodeRobotCost.1)
  }

  // ---------------------------------------------------------------- building

  datatype Robot = OreRobot | ClayRobot | ObsidianRobot | GeodeRobot

  /** The robot counts (ore, clay, obsidian, geode). */
  function Robots(s: State): (nat, nat, nat, nat) {
    (s.oreRobots, s.clayRobots, s.obsidianRobots, s.geodeRobots)
  }

  /** The stock (ore, clay, obsidian). */
  function Stock(s: State): (nat, nat, nat) {
    (s.ore, s.clay, s.obsidian)
  }

  /** The price of a robot as (ore, clay, obsidian). */
  function Cost(b: Blueprint, k: Robot): (nat, nat, nat) {
    match k
    case OreRobot => (b.oreRobotCost, 0, 0)
    case ClayRobot => (b.clayRobotCost, 0, 0)
    case ObsidianRobot => (b.obsidianRobotCost.0, b.obsidianRobotCost.1, 0)
    case GeodeRobot => (b.geodeRobotCost.0, 0, b.geodeRobotCost.1)
  }

  predicate Affordable(s: State, c: (nat, nat, nat)) {
    s.ore >= c.0 && s.clay >= c.1 && s.obsidian >= c.2
  }

  /** The robot counts with one more robot of kind `k`. */
  function AddRobot(r: (nat, nat, nat, nat), k: Robot): (nat, nat, nat, nat) {
    match k
    case OreRobot => (r.0 + 1, r.1, r.2, r.3)
    case ClayRobot => (r.0, r.1 + 1, r.2, r.3)
    case ObsidianRobot => (r.0, r.1, r.2 + 1, r.3)
    case GeodeRobot => (r.0, r.1, r.2, r.3 + 1)
  }

  /** A state after buying a robot of kind `k`: the stock minus its price
      and one more robot of that kind; everything else unchanged. */
  predicate Bought(b: Blueprint, s: State, k: Robot, n: State) {
    var c := Cost(b, k);
    Affordable(s, c)
    && Stock(n) == (s.ore - c.0, s.clay - c.1, s.obsidian - c.2)
    && Robots(n) == AddRobot(Robots(s), k)
    && n.crackedGeodes == s.crackedGeodes
    && n.maxOreNeeded == s.maxOreNeeded && n.maxClayNeeded == s.maxClayNeeded
    && n.maxObsidianNeeded == s.maxObsidianNeeded
  }

  /** Enough robots of kind `k` already: with `time_left` minutes to go,
      the robots and the stock together yield at least the cap for every
      remaining minute. Geode robots are never capped. */
  predicate Saturated(s: State, k: Robot, timeLeft: nat) {
    match k
    case OreRobot => s.oreRobots * timeLeft + s.ore >= s.maxOreNeeded * timeLeft
    case ClayRobot => s.clayRobots * timeLeft + s.clay >= s.maxClayNeeded * timeLeft
    case ObsidianRobot => s.obsidianRobots * timeLeft + s.obsidian >= s.maxObsidianNeeded * timeLeft
    case GeodeRobot => false
  }

  /** `build_ore_robot`. */
  function BuildOreRobot(s: State, b: Blueprint, timeLeft: nat): (r: Option<State>)
    ensures r.Some? <==> !Saturated(s, OreRobot, timeLeft) && Affordable(s, Cost(b, OreRobot))
    ensures r.Some? ==> Bought(b, s, OreRobot, r.value)
  {
    if s.oreRobots * timeLeft + s.ore >= s.maxOreNeeded * timeLeft then None
    else if s.ore >= b.oreRobotCost then Some(s.(oreRobots := s.oreRobots + 1, ore := s.ore - b.oreRobotCost))
    else None
  }

  /** `build_clay_robot`. */
  function BuildClayRobot(s: State, b: Blueprint, timeLeft: nat): (r: Option<State>)
    ensures r.Some? <==> !Saturated(s, ClayRobot, timeLeft) && Affordable(s, Cost(b, ClayRobot))
    ensures r.Some? ==> Bought(b, s, ClayRobot, r.value)
  {
    if s.clayRobots * timeLeft + s.clay >= s.maxClayNeeded * timeLeft then None
    else if s.ore >= b.clayRobotCost then Some(s.(clayRobots := s.clayRobots + 1, ore := s.ore - b.clayRobotCost))
    else None
  }

  /** `build_obsidian_robot`. */
  function BuildObsidianRobot(s: State, b: Blueprint, timeLeft: nat): (r: Option<State>)
    ensures r.Some? <==> !Saturated(s, ObsidianRobot, timeLeft) && Affordable(s, Cost(b, ObsidianRobot))
    ensures r.Some? ==> Bought(b, s, ObsidianRobot, r.value)
  {
    var (oreCost, clayCost) := b.obsidianRobotCost;
    if s.obsidianRobots * timeLeft + s.obsidian >= s.maxObsidianNeeded * timeLeft then None
    else if s.ore >= oreCost && s.clay >= clayCost then
      Some(s.(obsidianRobots := s.obsidianRobots + 1, ore := s.ore - oreCost, clay := s.clay - clayCost))
    else None
  }

  /** `build_geode_robot`: no cap, only the price. */
  function BuildGeodeRobot(s: State, b: Blueprint): (r: Option<State>)
    ensures r.Some? <==> Affordable(s, Cost(b, GeodeRobot))
    ensures r.Some? ==> Bought(b, s, GeodeRobot, r.value)
  {
    var (oreCost, obsidianCost) := b.geodeRobotCost;
    if s.ore >= oreCost && s.obsidian >= obsidianCost then
      Some(s.(geodeRobots := s.geodeRobots + 1, ore := s.ore - oreCost, obsidian := s.obsidian - obsidianCost))
    else None
  }

  // ---------------------------------------------------------------- successors

  /** `filter_map(clone)`: the present values, in order. */
  function Somes(opts: seq<Option<State>>): (r: seq<State>)
    ensures |r| <= |opts|
  {
    if opts == [] then []
    else
      var rest := Somes(opts[1..]);
      match opts[0]
      case None => rest
      case Some(n) => [n] + rest
  }

  lemma {:induction false} SomesMembers(opts: seq<Option<State>>, n: State)
    ensures n in Somes(opts) <==> Some(n) in opts
  {
    if opts != [] {
      SomesMembers(opts[1..], n);
      assert Some(n) in opts <==> Some(n) == opts[0] || Some(n) in opts[1..];
    }
  }

  /** Below some cap, so that waiting is worth considering. */
  predicate MayIdle(s: State) {
    s.ore < s.maxOreNeeded || s.clay < s.maxClayNeeded || s.obsidian < s.maxObsidianNeeded
  }

  /** The states of `possible_next_states` before production: the robots
      that can be built, in the order ore, clay, obsidian, geode, then the
      state itself when it may idle. */
  function Candidates(s: State, b: Blueprint, timeLeft: nat): seq<State> {
    Somes([BuildOreRobot(s, b, timeLeft), BuildClayRobot(s, b, timeLeft),
           BuildObsidianRobot(s, b, timeLeft), BuildGeodeRobot(s, b)])
    + (if MayIdle(s) then [s] else [])
  }

  /** What the robots of `s` collect in one minute, added to `n`. */
  function Produce(s: State, n: State): State {
    n.(ore := n.ore + s.oreRobots, clay := n.clay + s.clayRobots,
       obsidian := n.obsidian + s.obsidianRobots, crackedGeodes := n.crackedGeodes + s.geodeRobots)
  }

  function Successors(s: State, b: Blueprint, timeLeft: nat): (r: seq<State>) {
    var c := Candidates(s, b, timeLeft);
    seq(|c|, i requires 0 <= i < |c| => Produce(s, c[i]))
  }

  /** `possible_next_states`: the candidates, then each one's stock raised
      in place by what the robots of `s` collect. */
  method PossibleNextStates(s: State, b: Blueprint, timeLeft: nat) returns (next: seq<State>)
    ensures next == Successors(s, b, timeLeft)
  {
    var built := Somes([BuildOreRobot(s, b, timeLeft), BuildClayRobot(s, b, timeLeft),
                        BuildObsidianRobot(s, b, timeLeft), BuildGeodeRobot(s, b)]);
    next := built;
    if s.ore < s.maxOreNeeded || s.clay < s.maxClayNeeded || s.obsidian < s.maxObsidianNeeded {
      next := next + [s];
    }
    ghost var c := next;
    assert c == Candidates(s, b, timeLeft);
    for i := 0 to |next|
      invariant |next| == |c|
      invariant forall j | 0 <= j < i :: next[j] == Produce(s, c[j])
      invariant forall j | i <= j < |next| :: next[j] == c[j]
    {
      var state := next[i];
      state := state.(ore := state.ore + s.oreRobots);
      state := state.(clay := state.clay + s.clayRobots);
      state := state.(obsidian := state.obsidian + s.obsidianRobots);
      state := state.(crackedGeodes := state.crackedGeodes + s.geodeRobots);
      next := next[i := state];
    }
  }

  /** A choice for one minute: wait, or buy one robot. */
  datatype Action = Idle | Build(robot: Robot)

  /** When `possible_next_states` offers an action. */
  predicate Allowed(s: State, b: Blueprint, timeLeft: nat, a: Action) {
    match a
    case Idle => MayIdle(s)
    case Build(k) => Affordable(s, Cost(b, k)) && !Saturated(s, k, timeLeft)
  }

  /** The state a minute after action `a`: robots that exist at the start
      of the minute collect, and a robot bought now does not. */
  ghost predicate Outcome(b: Blueprint, s: State, a: Action, n: State) {
    match a
    case Idle => n == Produce(s, s)
    case Build(k) => exists m :: Bought(b, s, k, m) && n == Produce(s, m)
  }

  /** Every successor is the outcome of an allowed action, and every allowed
      action has its outcome among the successors. */
  lemma SuccessorsAreActions(s: State, b: Blueprint, timeLeft: nat, n: State)
    ensures n in Successors(s, b, timeLeft)
            <==> exists a :: Allowed(s, b, timeLeft, a) && Outcome(b, s, a, n)
  {
    var c := Candidates(s, b, timeLeft);
    var opts := [BuildOreRobot(s, b, timeLeft), BuildClayRobot(s, b, timeLeft),
                 BuildObsidianRobot(s, b, timeLeft), BuildGeodeRobot(s, b)];
    var built := Somes(opts);
    assert c == built + (if MayIdle(s) then [s] else []);
    var succ := Successors(s, b, timeLeft);
    if n in succ {
      var i :| 0 <= i < |succ| && succ[i] == n;
      if i < |built| {
        assert c[i] in built;
        var m := c[i];
        SomesMembers(opts, m);
        if Some(m) == opts[0] {
          assert Allowed(s, b, timeLeft, Build(OreRobot)) && Outcome(b, s, Build(OreRobot), n);
        } else if Some(m) == opts[1] {
          assert Allowed(s, b, timeLeft, Build(ClayRobot)) && Outcome(b, s, Build(ClayRobot), n);
        } else if Some(m) == opts[2] {
          assert Allowed(s, b, timeLeft, Build(ObsidianRobot)) && Outcome(b, s, Build(ObsidianRobot), n);
        } else {
          assert Allowed(s, b, timeLeft, Build(GeodeRobot)) && Outcome(b, s, Build(GeodeRobot), n);
        }
      } else {
        assert Allowed(s, b, timeLeft, Idle) && Outcome(b, s, Idle, n);
      }
    }
    if a :| Allowed(s, b, timeLeft, a) && Outcome(b, s, a, n) {
      OutcomeListed(s, b, timeLeft, a, n);
    }
  }

  lemma OutcomeListed(s: State, b: Blueprint, timeLeft: nat, a: Action, n: State)
    requires Allowed(s, b, timeLeft, a) && Outcome(b, s, a, n)
    ensures n in Successors(s, b, timeLeft)
  {
    var c := Candidates(s, b, timeLeft);
    var opts := [BuildOreRobot(s, b, timeLeft), BuildClayRobot(s, b, timeLeft),
                 BuildObsidianRobot(s, b, timeLeft), BuildGeodeRobot(s, b)];
    var built := Somes(opts);
    var succ := Successors(s, b, timeLeft);
    var m := if a == Idle then s else var m :| Bought(b, s, a.robot, m) && n == Produce(s, m); m;
    assert n == Produce(s, m);
    if a == Idle {
      assert c[|built|] == s;
      assert succ[|built|] == n;
    } else {
      match a.robot {
        case OreRobot => BoughtUnique(b, s, OreRobot, opts[0].value, m);
        case ClayRobot => BoughtUnique(b, s, ClayRobot, opts[1].value, m);
        case ObsidianRobot => BoughtUnique(b, s, ObsidianRobot, opts[2].value, m);
        case GeodeRobot => BoughtUnique(b, s, GeodeRobot, opts[3].value, m);
      }
      assert Some(m) in opts;
      SomesMembers(opts, m);
      var i :| 0 <= i < |built| && built[i] == m;
      assert c[i] == m;
      assert succ[i] == n;
    }
  }

  /** A purchase determines the new state. */
  lemma BoughtUnique(b: Blueprint, s: State, k: Robot, m1: State, m2: State)
    requires Bought(b, s, k, m1) && Bought(b, s, k, m2)
    ensures m1 == m2
  {
  }

  /** A minute keeps the caps, adds what the geode robots crack, and adds
      at most one geode robot. */
  lemma SuccessorFacts(s: State, b: Blueprint, timeLeft: nat, n: State)
    requires n in Successors(s, b, timeLeft)
    ensures Caps(b, s) ==> Caps(b, n)
    ensures n.crackedGeodes == s.crackedGeodes + s.geodeRobots
    ensures s.geodeRobots <= n.geodeRobots <= s.geodeRobots + 1
  {
    SuccessorsAreActions(s, b, timeLeft, n);
    var a :| Allowed(s, b, timeLeft, a) && Outcome(b, s, a, n);
    if a.Build? {
      var m :| Bought(b, s, a.robot, m) && n == Produce(s, m);
      assert Robots(m) == AddRobot(Robots(s), a.robot);
    }
  }

  /** With the caps of its blueprint a state always has a successor: when
      it may not idle, its stock is at least every cap, which pays for a
      geode robot. So the maximum over the successors always exists. */
  lemma SuccessorsNonEmpty(s: State, b: Blueprint, timeLeft: nat)
    requires Caps(b, s)
    ensures Successors(s, b, timeLeft) != []
  {
    if !MayIdle(s) {
      var g := BuildGeodeRobot(s, b);
      assert g.Some?;
      var opts := [BuildOreRobot(s, b, timeLeft), BuildClayRobot(s, b, timeLeft),
                   BuildObsidianRobot(s, b, timeLeft), g];
      assert opts[3] == g;
      SomesMembers(opts, g.value);
    }
  }

  // ---------------------------------------------------------------- search

  /** `utopistic_cracked_geodes`. */
  function Utopistic(s: State, timeLeft: nat): (u: nat)
    ensures u >= s.crackedGeodes
  {
    s.crackedGeodes + timeLeft
  }

  /** The most geodes reachable from `s` with `timeLeft` minutes to go,
      over every sequence of successors. */
  function Best(b: Blueprint, s: State, timeLeft: nat): nat
    decreases timeLeft, 0, 0
  {
    if timeLeft == 0 then s.crackedGeodes
    else BestOf(b, Successors(s, b, timeLeft), timeLeft - 1)
  }

  /** The largest `Best` over a list of states (0 for none). */
  function BestOf(b: Blueprint, states: seq<State>, timeLeft: nat): nat
    decreases timeLeft, 1, |states|
  {
    if states == [] then 0
    else if |states| == 1 then Best(b, states[0], timeLeft)
    else Max(BestOf(b, states[..|states| - 1], timeLeft), Best(b, states[|states| - 1], timeLeft))
  }

  /** The number of complete simulations, one per path of successors. */
  function Explored(b: Blueprint, s: State, timeLeft: nat): nat
    decreases timeLeft, 0, 0
  {
    if timeLeft == 0 then 1
    else ExploredOf(b, Successors(s, b, timeLeft), timeLeft - 1)
  }

  function ExploredOf(b: Blueprint, states: seq<State>, timeLeft: nat): nat
    decreases timeLeft, 1, |states|
  {
    if states == [] then 0
    else ExploredOf(b, states[..|states| - 1], timeLeft) + Explored(b, states[|states| - 1], timeLeft)
  }

  lemma BestOfSnoc(b: Blueprint, states: seq<State>, i: nat, timeLeft: nat)
    requires i < |states|
    ensures BestOf(b, states[..i + 1], timeLeft)
            == if i == 0 then Best(b, states[0], timeLeft)
               else Max(BestOf(b, states[..i], timeLeft), Best(b, states[i], timeLeft))
    ensures ExploredOf(b, states[..i + 1], timeLeft)
            == ExploredOf(b, states[..i], timeLeft) + Explored(b, states[i], timeLeft)
  {
    var prefix := states[..i + 1];
    assert prefix[..i] == states[..i] && prefix[i] == states[i];
  }

  /** The running maximum after the first `i` states: none before the
      first. */
  function BestSoFar(b: Blueprint, states: seq<State>, i: nat, timeLeft: nat): Option<nat>
    requires i <= |states|
  {
    if i == 0 then None else Some(BestOf(b, states[..i], timeLeft))
  }

  lemma SearchStep(b: Blueprint, states: seq<State>, i: nat, timeLeft: nat,
                   before: Option<nat>, g: nat, exploredBefore: nat, e: nat)
    requires i < |states| && before == BestSoFar(b, states, i, timeLeft)
    requires g == Best(b, states[i], timeLeft) && e == exploredBefore + Explored(b, states[i], timeLeft)
    ensures (if before.None? then Some(g) else Some(Max(before.value, g))) == BestSoFar(b, states, i + 1, timeLeft)
    ensures ExploredOf(b, states[..i + 1], timeLeft) == ExploredOf(b, states[..i], timeLeft) + Explored(b, states[i], timeLeft)
  {
    BestOfSnoc(b, states, i, timeLeft);
  }

  /** `simulate_all_`: a depth first search that counts every finished
      simulation in `explored`. A successor is pruned when its hopeful
      bound falls below `maxGeodesSeen`; the source passes each successor's
      own cracked geodes down as that value, and successors never crack
      fewer, so nothing is ever pruned and the search is exhaustive. */
  method SimulateAll_(s: State, b: Blueprint, timeLeft: nat, maxGeodesSeen: nat, explored: nat)
    returns (geodes: nat, explored': nat)
    requires Caps(b, s) && maxGeodesSeen <= s.crackedGeodes
    ensures geodes == Best(b, s, timeLeft)
    ensures explored' == explored + Explored(b, s, timeLeft)
    decreases timeLeft, 1
  {
    if timeLeft == 0 {
      return s.crackedGeodes, explored + 1;
    }
    var next := PossibleNextStates(s, b, timeLeft);
    SuccessorsNonEmpty(s, b, timeLeft);
    forall i | 0 <= i < |next|
      ensures Caps(b, next[i]) && Utopistic(next[i], timeLeft) >= maxGeodesSeen
    {
      SuccessorFacts(s, b, timeLeft, next[i]);
    }
    geodes, explored' := Explore(next, b, timeLeft, maxGeodesSeen, explored);
    BestUnfold(b, s, timeLeft);
    ExploredUnfold(b, s, timeLeft);
  }

  /** The `filter_map(...).max().unwrap()` of `simulate_all_` over the
      successors `next` of a state, taken one by one. */
  method Explore(next: seq<State>, b: Blueprint, timeLeft: nat, maxGeodesSeen: nat, explored: nat)
    returns (geodes: nat, explored': nat)
    requires timeLeft > 0 && next != []
    requires forall i | 0 <= i < |next| :: Caps(b, next[i]) && Utopistic(next[i], timeLeft) >= maxGeodesSeen
    ensures geodes == BestOf(b, next, timeLeft - 1)
    ensures explored' == explored + ExploredOf(b, next, timeLeft - 1)
    decreases timeLeft, 0
  {
    var best: Option<nat> := None;
    explored' := explored;
    for i := 0 to |next|
      invariant best == BestSoFar(b, next, i, timeLeft - 1)
      invariant explored' == explored + ExploredOf(b, next[..i], timeLeft - 1)
    {
      var n := next[i];
      if Utopistic(n, timeLeft) < maxGeodesSeen {
        // Pruned: unreachable, as every successor has cracked at least
        // `maxGeodesSeen` geodes.
        assert false;
      } else {
        ghost var before, exploredBefore := best, explored';
        var g, e := SimulateAll_(n, b, timeLeft - 1, n.crackedGeodes, explored');
        best := if best.None? then Some(g) else Some(Max(best.value, g));
        explored' := e;
        SearchStep(b, next, i, timeLeft - 1, before, g, exploredBefore, e);
      }
    }
    assert next[..|next|] == next;
    geodes := best.value;
  }

  /** `simulate_all`: the search from the blueprint's starting state over
      the 24 minutes. */
  method SimulateAll(b: Blueprint) returns (geodes: nat, explored: nat)
    ensures geodes == Best(b, FromBlueprint(b), TotalMinutes)
    ensures explored == Explored(b, FromBlueprint(b), TotalMinutes)
  {
    geodes, explored := SimulateAll_(FromBlueprint(b), b, TotalMinutes, 0, 0);
  }

  // ---------------------------------------------------------------- bounds

  /** Geodes cracked if the geode robots at hand keep working and none is
      added. */
  function SteadyGeodes(cracked: nat, robots: nat, timeLeft: nat): nat
    decreases timeLeft
  {
    if timeLeft == 0 then cracked else SteadyGeodes(cracked + robots, robots, timeLeft - 1)
  }

  /** Geodes cracked if a geode robot is added every minute. */
  function EagerGeodes(cracked: nat, robots: nat, timeLeft: nat): nat
    decreases timeLeft
  {
    if timeLeft == 0 then cracked else EagerGeodes(cracked + robots, robots + 1, timeLeft - 1)
  }

  lemma {:induction false} SteadyMonotone(c1: nat, r1: nat, c2: nat, r2: nat, timeLeft: nat)
    requires c1 <= c2 && r1 <= r2
    ensures SteadyGeodes(c1, r1, timeLeft) <= SteadyGeodes(c2, r2, timeLeft)
    decreases timeLeft
  {
    if timeLeft > 0 {
      SteadyMonotone(c1 + r1, r1, c2 + r2, r2, timeLeft - 1);
    }
  }

  lemma {:induction false} EagerMonotone(c1: nat, r1: nat, c2: nat, r2: nat, timeLeft: nat)
    requires c1 <= c2 && r1 <= r2
    ensures EagerGeodes(c1, r1, timeLeft) <= EagerGeodes(c2, r2, timeLeft)
    decreases timeLeft
  {
    if timeLeft > 0 {
      EagerMonotone(c1 + r1, r1 + 1, c2 + r2, r2 + 1, timeLeft - 1);
    }
  }

  /** `BestOf` is the maximum: at least every element's `Best`, and equal
      to one of them. */
  lemma {:induction false} BestOfIsMax(b: Blueprint, states: seq<State>, timeLeft: nat)
    ensures forall i | 0 <= i < |states| :: BestOf(b, states, timeLeft) >= Best(b, states[i], timeLeft)
    ensures states != [] ==> exists i | 0 <= i < |states| :: BestOf(b, states, timeLeft) == Best(b, states[i], timeLeft)
    decreases |states|
  {
    if |states| > 1 {
      var front := states[..|states| - 1];
      BestOfIsMax(b, front, timeLeft);
      assert forall i | 0 <= i < |front| :: front[i] == states[i];
    }
  }

  lemma BestUnfold(b: Blueprint, s: State, timeLeft: nat)
    requires timeLeft > 0
    ensures Best(b, s, timeLeft) == BestOf(b, Successors(s, b, timeLeft), timeLeft - 1)
  {
  }

  lemma ExploredUnfold(b: Blueprint, s: State, timeLeft: nat)
    requires timeLeft > 0
    ensures Explored(b, s, timeLeft) == ExploredOf(b, Successors(s, b, timeLeft), timeLeft - 1)
  {
  }

  lemma BestOfAttained(b: Blueprint, states: seq<State>, timeLeft: nat) returns (i: nat)
    requires states != []
    ensures i < |states| && BestOf(b, states, timeLeft) == Best(b, states[i], timeLeft)
  {
    BestOfIsMax(b, states, timeLeft);
    i :| 0 <= i < |states| && BestOf(b, states, timeLeft) == Best(b, states[i], timeLeft);
  }

  lemma BestOfAtLeast(b: Blueprint, states: seq<State>, timeLeft: nat, i: nat)
    requires i < |states|
    ensures BestOf(b, states, timeLeft) >= Best(b, states[i], timeLeft)
  {
    BestOfIsMax(b, states, timeLeft);
  }

  /** At least the geodes of the robots at hand: some successor always
      keeps them. */
  lemma {:induction false} BestAtLeastSteady(b: Blueprint, s: State, timeLeft: nat)
    requires Caps(b, s)
    ensures Best(b, s, timeLeft) >= SteadyGeodes(s.crackedGeodes, s.geodeRobots, timeLeft)
    decreases timeLeft
  {
    if timeLeft > 0 {
      var succ := Successors(s, b, timeLeft);
      SuccessorsNonEmpty(s, b, timeLeft);
      SuccessorFacts(s, b, timeLeft, succ[0]);
      SuccessorAboveSteady(b, s, timeLeft, succ[0]);
      BestOfAtLeast(b, succ, timeLeft - 1, 0);
      BestUnfold(b, s, timeLeft);
    }
  }

  lemma SuccessorAboveSteady(b: Blueprint, s: State, timeLeft: nat, n: State)
    requires timeLeft > 0 && Caps(b, n)
    requires n.crackedGeodes == s.crackedGeodes + s.geodeRobots && n.geodeRobots >= s.geodeRobots
    ensures Best(b, n, timeLeft - 1) >= SteadyGeodes(s.crackedGeodes, s.geodeRobots, timeLeft)
    decreases timeLeft, 0
  {
    BestAtLeastSteady(b, n, timeLeft - 1);
    SteadyMonotone(s.crackedGeodes + s.geodeRobots, s.geodeRobots, n.crackedGeodes, n.geodeRobots, timeLeft - 1);
    assert SteadyGeodes(s.crackedGeodes, s.geodeRobots, timeLeft)
        == SteadyGeodes(s.crackedGeodes + s.geodeRobots, s.geodeRobots, timeLeft - 1);
  }

  /** At most the geodes of building a geode robot every minute. */
  lemma {:induction false} BestAtMostEager(b: Blueprint, s: State, timeLeft: nat)
    ensures Best(b, s, timeLeft) <= EagerGeodes(s.crackedGeodes, s.geodeRobots, timeLeft)
    decreases timeLeft
  {
    if timeLeft > 0 {
      var succ := Successors(s, b, timeLeft);
      BestUnfold(b, s, timeLeft);
      if succ != [] {
        var i := BestOfAttained(b, succ, timeLeft - 1);
        SuccessorFacts(s, b, timeLeft, succ[i]);
        SuccessorBelowEager(b, s, timeLeft, succ[i]);
      }
    }
  }

  lemma SuccessorBelowEager(b: Blueprint, s: State, timeLeft: nat, n: State)
    requires timeLeft > 0
    requires n.crackedGeodes == s.crackedGeodes + s.geodeRobots && n.geodeRobots <= s.geodeRobots + 1
    ensures Best(b, n, timeLeft - 1) <= EagerGeodes(s.crackedGeodes, s.geodeRobots, timeLeft)
    decreases timeLeft, 0
  {
    BestAtMostEager(b, n, timeLeft - 1);
    EagerMonotone(n.crackedGeodes, n.geodeRobots, s.crackedGeodes + s.geodeRobots, s.geodeRobots + 1, timeLeft - 1);
    assert EagerGeodes(s.crackedGeodes, s.geodeRobots, timeLeft)
        == EagerGeodes(s.crackedGeodes + s.geodeRobots, s.geodeRobots + 1, timeLeft - 1);
  }

  /** Building a geode robot every minute from `robots` of them cracks
      `robots` per minute plus 0 + 1 + ... + (timeLeft - 1). */
  lemma {:induction false} EagerClosedForm(cracked: nat, robots: nat, timeLeft: nat)
    ensures 2 * EagerGeodes(cracked, robots, timeLeft)
            == 2 * cracked + 2 * robots * timeLeft + timeLeft * (timeLeft - 1)
    decreases timeLeft
  {
    if timeLeft > 0 {
      EagerClosedForm(cracked + robots, robots + 1, timeLeft - 1);
      assert 2 * (robots + 1) * (timeLeft - 1) == 2 * robots * timeLeft - 2 * robots + 2 * (timeLeft - 1);
      assert (timeLeft - 1) * (timeLeft - 2) + 2 * (timeLeft - 1) == timeLeft * (timeLeft - 1);
    }
  }

  /** Over 24 minutes from one ore robot, at most 0 + 1 + ... + 23 = 276
      geodes. */
  lemma BlueprintGeodesBound(b: Blueprint)
    ensures Best(b, FromBlueprint(b), TotalMinutes) <= 276
  {
    BestAtMostEager(b, FromBlueprint(b), TotalMinutes);
    EagerClosedForm(0, 0, TotalMinutes);
  }
}
