/** Day 10, "Cathode-Ray Tube": a CPU with one register X, starting at 1,
    runs `noop` (one cycle) and `addx v` (two cycles, then X += v). The
    signal strength during cycle c is c times X; the answer sums it over
    cycles 20, 60, 100, 140, 180 and 220. */
module Day10Cpu {
  import opened Text

  const I32Min: int := -0x8000_0000
  const I32Max: int := 0x7FFF_FFFF

  const TargetCycles: seq<nat> := [20, 60, 100, 140, 180, 220]

  /** The largest target cycle: the loop runs this many cycles. */
  const LastCycle: nat := 220

  /** What a line does. A line that is neither "noop" nor starts with
      "addx" does nothing for one cycle, like `noop`. */
  datatype Instruction = Noop | Addx(v: int)

  /** Reading a line; `None` where the `addx` operand does not parse as an
      `i32`, which panics. */
  function Decode(line: string): (r: Option<Instruction>)
    ensures line == "noop" ==> r == Some(Noop)
    ensures r.Some? && r.value.Addx? ==> StartsWith(line, "addx") && I32Min <= r.value.v <= I32Max
    ensures !StartsWith(line, "addx") ==> r == Some(Noop)
  {
    if line == "noop" then Some(Noop)
    else if StartsWith(line, "addx") then
      match ParseInt(Trim(line[4..]), I32Min, I32Max)
      case None => None
      case Some(v) => Some(Addx(v))
    else Some(Noop)
  }

  function Cycles(i: Instruction): nat {
    if i.Addx? then 2 else 1
  }

  // ---------------------------------------------------------------- the timeline

  /** Each line as it would be read; a line is only read, and its operand
      only parsed, when the loop reaches it. */
  type Program = seq<Option<Instruction>>

  function ProgramOf(lines: seq<string>): (p: Program)
    ensures |p| == |lines|
    ensures forall i | 0 <= i < |lines| :: p[i] == Decode(lines[i])
  {
    seq(|lines|, i requires 0 <= i < |lines| => Decode(lines[i]))
  }

  lemma ProgramOfTail(lines: seq<string>)
    requires lines != []
    ensures ProgramOf(lines)[1..] == ProgramOf(lines[1..])
  { }

  /** The value of X during each of the next `n` cycles, starting with X ==
      `x` and the program `prog`; `None` where the loop would panic: a line
      is needed and there is none, or an `addx` operand read does not
      parse. */
  function Timeline(prog: Program, x: int, n: nat): (r: Option<seq<int>>)
    ensures r.Some? ==> |r.value| == n
    ensures r.Some? && n > 0 ==> r.value[0] == x
    decreases n
  {
    if n == 0 then Some([])
    else if prog == [] then None
    else
      match prog[0]
      case None => None
      case Some(Noop) => Prepend([x], Timeline(prog[1..], x, n - 1))
      case Some(Addx(v)) => if n == 1 then Some([x]) else Prepend([x, x], Timeline(prog[1..], x + v, n - 2))
  }

  function Prepend(p: seq<int>, o: Option<seq<int>>): (r: Option<seq<int>>)
    ensures r.Some? <==> o.Some?
    ensures r.Some? ==> r.value == p + o.value
  {
    match o
    case None => None
    case Some(s) => Some(p + s)
  }

  /** Every one of the first `i` lines reads as an instruction. */
  predicate ReadsUpTo(prog: Program, i: nat) {
    i <= |prog| && forall j | 0 <= j < i :: prog[j].Some?
  }

  /** The cycle index at which the `i`-th instruction starts: the cycles the
      earlier instructions take. */
  function Start(prog: Program, i: nat): nat
    requires ReadsUpTo(prog, i)
  {
    if i == 0 then 0 else Start(prog, i - 1) + Cycles(prog[i - 1].value)
  }

  /** X once an instruction is over. */
  function After(instr: Instruction, x: int): int {
    if instr.Addx? then x + instr.v else x
  }

  /** A timeline is the first instruction's cycles, then the timeline of the
      remaining program from the value X has after it. */
  lemma TimelineShift(prog: Program, x: int, n: nat)
    requires Timeline(prog, x, n).Some? && prog != [] && prog[0].Some?
    requires Cycles(prog[0].value) <= n
    ensures var c, vals := Cycles(prog[0].value), Timeline(prog, x, n).value;
            var rest := Timeline(prog[1..], After(prog[0].value, x), n - c);
            rest.Some? && vals == vals[..c] + rest.value
  {
  }

  /** What an instruction starting at cycle index `s` does to X: `noop`
      keeps it for its one cycle; `addx v` keeps it for both its cycles
      and adds `v` once they are over. */
  predicate Effect(vals: seq<int>, s: nat, instr: Instruction)
    requires s + Cycles(instr) < |vals|
  {
    match instr
    case Noop => vals[s + 1] == vals[s]
    case Addx(v) => vals[s + 1] == vals[s] && vals[s + 2] == vals[s] + v
  }

  lemma EffectShift(vals: seq<int>, rest: seq<int>, c: nat, s: nat, instr: Instruction)
    requires c <= |vals| && vals == vals[..c] + rest
    requires s + Cycles(instr) < |rest| && Effect(rest, s, instr)
    ensures Effect(vals, c + s, instr)
  {
    assert vals[c + s] == rest[s] && vals[c + s + 1] == rest[s + 1];
    if instr.Addx? {
      assert vals[c + s + 2] == rest[s + 2];
    }
  }

  /** Dropping the first instruction moves every start back by its cycles. */
  lemma {:induction false} StartShift(prog: Program, i: nat)
    requires 0 < i && ReadsUpTo(prog, i)
    ensures ReadsUpTo(prog[1..], i - 1)
    ensures Start(prog, i) == Cycles(prog[0].value) + Start(prog[1..], i - 1)
    decreases i
  {
    if i > 1 {
      StartShift(prog, i - 1);
    }
  }

  /** X changes, cycle by cycle, only as the instruction running says: the
      effect of the `i`-th instruction, wherever it starts. */
  lemma {:induction false} InstructionEffect(prog: Program, x: int, n: nat, i: nat)
    requires Timeline(prog, x, n).Some?
    requires i < |prog| && ReadsUpTo(prog, i + 1)
    requires Start(prog, i) + Cycles(prog[i].value) < n
    ensures Effect(Timeline(prog, x, n).value, Start(prog, i), prog[i].value)
    decreases i
  {
    TimelineShift(prog, x, n);
    var first := prog[0].value;
    var c := Cycles(first);
    var vals := Timeline(prog, x, n).value;
    if i > 0 {
      StartShift(prog, i + 1);
      StartShift(prog, i);
      var rest := Timeline(prog[1..], After(first, x), n - c).value;
      InstructionEffect(prog[1..], After(first, x), n - c, i - 1);
      EffectShift(vals, rest, c, Start(prog[1..], i - 1), prog[i].value);
    }
  }

  // ---------------------------------------------------------------- strength

  /** Sum of X × cycle over the target cycles that `vals` reaches;
      `vals[c - 1]` is X during cycle c. */
  function StrengthOver(vals: seq<int>, targets: seq<nat>): int {
    if targets == [] then 0
    else
      var t := targets[0];
      (if 1 <= t <= |vals| then vals[t - 1] * t else 0) + StrengthOver(vals, targets[1..])
  }

  predicate Increasing(targets: seq<nat>) {
    forall i, j | 0 <= i < j < |targets| :: targets[i] < targets[j]
  }

  /** With each target listed once, one more cycle adds its strength when
      it is a target, and nothing otherwise. */
  lemma {:induction false} StrengthOverSnoc(vals: seq<int>, x: int, targets: seq<nat>)
    requires Increasing(targets)
    ensures StrengthOver(vals + [x], targets) ==
            StrengthOver(vals, targets) + if |vals| + 1 in targets then x * (|vals| + 1) else 0
  {
    if targets != [] {
      var t, later := targets[0], targets[1..];
      StrengthOverSnoc(vals, x, later);
      assert forall u | u in later :: t < u;
      assert |vals| + 1 in targets <==> t == |vals| + 1 || |vals| + 1 in later;
      if 1 <= t <= |vals| {
        assert (vals + [x])[t - 1] == vals[t - 1];
      }
    }
  }

  /** The answer for a timeline of the first 220 cycles. */
  function SignalStrength(vals: seq<int>): int {
    StrengthOver(vals, TargetCycles)
  }

  /** `total` is the strength sum of the cycles `seen`. */
  ghost predicate Sampled(total: int, seen: seq<int>) {
    total == SignalStrength(seen)
  }

  /** The sampling step of `run`: during a target cycle the strength
      X × cycle is added to the total. */
  method AddStrength(total: int, ghost seen: seq<int>, register: int, correctedCycle: nat) returns (total': int)
    requires correctedCycle == |seen| + 1 && Sampled(total, seen)
    ensures Sampled(total', seen + [register])
  {
    StrengthOverSnoc(seen, register, TargetCycles);
    total' := total;
    if correctedCycle in TargetCycles {
      total' := total + register * correctedCycle;
    }
  }

  // ---------------------------------------------------------------- the loop

  /** The timeline still to come after some cycles: with an `addx v` in its
      second cycle, X stays for that cycle and then grows by `v`. */
  function Remaining(prog: Program, x: int, pending: bool, next: int, n: nat): Option<seq<int>> {
    if !pending then Timeline(prog, x, n)
    else if n == 0 then Some([])
    else Prepend([x], Timeline(prog, x + next, n - 1))
  }

  lemma PrependConcat(a: seq<int>, b: seq<int>, o: Option<seq<int>>)
    ensures Prepend(a, Prepend(b, o)) == Prepend(a + b, o)
  {
    if o.Some? {
      assert a + (b + o.value) == (a + b) + o.value;
    }
  }

  /** Reading an `addx v` with `n + 1` cycles left: this cycle keeps X, and
      the rest is the pending second cycle. */
  lemma AddxRead(prog: Program, x: int, v: int, n: nat)
    requires prog != [] && prog[0] == Some(Addx(v))
    ensures Timeline(prog, x, n + 1) == Prepend([x], Remaining(prog[1..], x, true, v, n))
  {
    if n > 0 {
      PrependConcat([x], [x], Timeline(prog[1..], x + v, n - 1));
      assert [x] + [x] == [x, x];
    } else {
      assert [x] + [] == [x];
    }
  }

  /** The second half of one cycle of `run`: finish the pending `addx`, or
      read the next line. `ok` is false where the code panics. The cycle
      just run had X == `register`, and the state after it continues the
      same timeline. */
  method Tick(rest: seq<string>, register: int, addxPending: bool, nextAddxValue: int, ghost n: nat)
    returns (ok: bool, rest': seq<string>, register': int, addxPending': bool, nextAddxValue': int)
    ensures ok ==> Remaining(ProgramOf(rest), register, addxPending, nextAddxValue, n + 1) ==
                   Prepend([register], Remaining(ProgramOf(rest'), register', addxPending', nextAddxValue', n))
    ensures !ok ==> Remaining(ProgramOf(rest), register, addxPending, nextAddxValue, n + 1).None?
  {
    if addxPending {
      return true, rest, register + nextAddxValue, false, 0;
    }
    if rest == [] {
      return false, rest, register, addxPending, nextAddxValue;
    }
    ProgramOfTail(rest);
    var nextLine := rest[0];
    if nextLine == "noop" {
      assert ProgramOf(rest)[0] == Some(Noop);
      return true, rest[1..], register, false, nextAddxValue;
    } else if StartsWith(nextLine, "addx") {
      var operand := ParseInt(Trim(nextLine[4..]), I32Min, I32Max);
      if operand.None? {
        assert ProgramOf(rest)[0].None?;
        return false, rest, register, addxPending, nextAddxValue;
      }
      assert ProgramOf(rest)[0] == Some(Addx(operand.value));
      AddxRead(ProgramOf(rest), register, operand.value, n);
      return true, rest[1..], register, true, operand.value;
    }
    assert ProgramOf(rest)[0] == Some(Noop);
    return true, rest[1..], register, false, nextAddxValue;
  }

  /** After the cycles whose X values are `seen`, the loop state continues
      the timeline of the whole program for the `n` cycles left. */
  ghost predicate OnTrack(lines: seq<string>, seen: seq<int>, rest: seq<string>, register: int,
                          addxPending: bool, nextAddxValue: int, n: nat)
  {
    Timeline(ProgramOf(lines), 1, LastCycle) ==
    Prepend(seen, Remaining(ProgramOf(rest), register, addxPending, nextAddxValue, n))
  }

  lemma OnTrackStart(lines: seq<string>)
    ensures OnTrack(lines, [], lines, 1, false, 0, LastCycle)
  {
    var t := Timeline(ProgramOf(lines), 1, LastCycle);
    if t.Some? {
      assert [] + t.value == t.value;
    }
  }

  lemma OnTrackStep(lines: seq<string>, seen: seq<int>, rest: seq<string>, register: int, addxPending: bool,
                    nextAddxValue: int, rest': seq<string>, register': int, addxPending': bool, nextAddxValue': int, n: nat)
    requires OnTrack(lines, seen, rest, register, addxPending, nextAddxValue, n + 1)
    requires Remaining(ProgramOf(rest), register, addxPending, nextAddxValue, n + 1) ==
             Prepend([register], Remaining(ProgramOf(rest'), register', addxPending', nextAddxValue', n))
    ensures OnTrack(lines, seen + [register], rest', register', addxPending', nextAddxValue', n)
  {
    PrependConcat(seen, [register], Remaining(ProgramOf(rest'), register', addxPending', nextAddxValue', n));
  }

  lemma OnTrackEnd(lines: seq<string>, seen: seq<int>, rest: seq<string>, register: int, addxPending: bool, nextAddxValue: int)
    requires OnTrack(lines, seen, rest, register, addxPending, nextAddxValue, 0)
    ensures Timeline(ProgramOf(lines), 1, LastCycle) == Some(seen)
  {
    assert seen + [] == seen;
  }

  /** `run`: for each of the 220 cycles, add the strength when the cycle is
      a target, then either finish the pending `addx` or read the next line.
      The result is the sum of the strengths of the timeline, and `None`
      exactly when the timeline does not exist: the input runs out before
      cycle 220 or an `addx` operand read by then does not parse. */
  method SumOfStrengths(lines: seq<string>) returns (r: Option<int>)
    ensures r.None? <==> Timeline(ProgramOf(lines), 1, LastCycle).None?
    ensures r.Some? ==> r.value == SignalStrength(Timeline(ProgramOf(lines), 1, LastCycle).value)
  {
    var total := 0;
    var register := 1;
    var rest := lines;
    var addxPending := false;
    var nextAddxValue := 0;
    ghost var seen: seq<int> := [];
    OnTrackStart(lines);
    for cycle := 0 to LastCycle
      invariant |seen| == cycle
      invariant Sampled(total, seen)
      invariant OnTrack(lines, seen, rest, register, addxPending, nextAddxValue, LastCycle - cycle)
    {
      var correctedCycle := cycle + 1;
      total := AddStrength(total, seen, register, correctedCycle);
      var ok, rest', register', addxPending', nextAddxValue' :=
        Tick(rest, register, addxPending, nextAddxValue, LastCycle - cycle - 1);
      if !ok {
        return None;
      }
      OnTrackStep(lines, seen, rest, register, addxPending, nextAddxValue,
                  rest', register', addxPending', nextAddxValue', LastCycle - cycle - 1);
      seen := seen + [register];
      rest, register, addxPending, nextAddxValue := rest', register', addxPending', nextAddxValue';
    }
    OnTrackEnd(lines, seen, rest, register, addxPending, nextAddxValue);
    return Some(total);
  }
}
