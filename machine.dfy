/** One iteration of the loop of `bf_interpreter::run` as a function on a
    machine state, a fuel-bounded run built from it, and what running the
    two optimized loop shapes does. */
module Machine {
  import opened Instructions

  /** `ip`, `dp`, the tape, and the bytes written to and still to be read
      from the standard streams. */
  datatype State = State(ip: nat, dp: size_t, tape: seq<uint8>, output: seq<uint8>, input: seq<uint8>)

  /** The state the constructor sets up: `ip = dp = 0` and a zeroed tape of
      65536 cells. */
  function InitialState(input: seq<uint8>): (s: State)
    ensures s.ip == 0 && s.dp == 0 && s.output == [] && s.input == input
    ensures |s.tape| == TAPE_SIZE && forall k :: 0 <= k < TAPE_SIZE ==> s.tape[k] == 0
  {
    State(0, 0, seq(TAPE_SIZE, _ => 0), [], input)
  }

  /** A step either produces the next state or touches a cell outside the
      tape (undefined behaviour in the source). */
  datatype StepResult = Next(next: State) | Fault

  /** Whether a branch instruction jumps. */
  predicate Jumps(op: Opcode, cell: uint8) {
    (op == BranchIfZero && cell == 0) || (op == BranchIfNonzero && cell != 0)
  }

  /** Fetch `prog[ip]`, advance `ip`, then apply the instruction. */
  function StepFn(prog: seq<Instr>, s: State): (r: StepResult)
    requires s.ip < |prog|
    ensures r.Next? ==> |r.next.tape| == |s.tape|
  {
    var ins := prog[s.ip];
    var t := s.(ip := s.ip + 1);
    if ins.op == AddToDp then
      Next(t.(dp := WrapSize(s.dp + ins.data1)))
    else if s.dp >= |s.tape| then
      Fault
    else
      var cell := s.tape[s.dp];
      match ins.op
      case AddToCell => Next(t.(tape := s.tape[s.dp := AddByte(cell, ToUint8(ins.data1))]))
      case Output => Next(t.(output := s.output + [cell]))
      case Input =>
        if s.input == [] then Next(t)
        else Next(t.(tape := s.tape[s.dp := s.input[0]], input := s.input[1..]))
      case Store => Next(t.(tape := s.tape[s.dp := ToUint8(ins.data1)]))
      case AddCells =>
        var target := WrapSize(s.dp + ins.data1);
        if target >= |s.tape| then Fault
        else Next(t.(tape := s.tape[target := AddByte(s.tape[target], ToUint8(ins.data2 * cell))]))
      case BranchIfZero => Next(if Jumps(ins.op, cell) then t.(ip := WrapSize(ins.data1)) else t)
      case BranchIfNonzero => Next(if Jumps(ins.op, cell) then t.(ip := WrapSize(ins.data1)) else t)
      case AddToDp => Next(t)
  }

  /** Each instruction changes only the part of the state it names. */
  lemma StepFrame(prog: seq<Instr>, s: State)
    requires s.ip < |prog|
    ensures var ins := prog[s.ip];
      var r := StepFn(prog, s);
      (r.Fault? <==> ins.op != AddToDp &&
                     (s.dp >= |s.tape| || (ins.op == AddCells && WrapSize(s.dp + ins.data1) >= |s.tape|))) &&
      (r.Next? ==> r.next.ip == (if IsBranch(ins.op) && Jumps(ins.op, s.tape[s.dp])
                                 then WrapSize(ins.data1) else s.ip + 1)) &&
      (r.Next? && ins.op == AddToDp ==> r.next.dp == WrapSize(s.dp + ins.data1)) &&
      (r.Next? && ins.op != AddToDp ==> r.next.dp == s.dp) &&
      (r.Next? && ins.op != Output ==> r.next.output == s.output) &&
      (r.Next? && ins.op != Input ==> r.next.input == s.input) &&
      (r.Next? && (ins.op == AddToDp || ins.op == Output || IsBranch(ins.op)) ==> r.next.tape == s.tape) &&
      (r.Next? && ins.op == Output ==> r.next.output == s.output + [s.tape[s.dp]]) &&
      (r.Next? && (ins.op == AddToCell || ins.op == Store || ins.op == Input) ==>
         forall k :: 0 <= k < |s.tape| && k != s.dp ==> r.next.tape[k] == s.tape[k]) &&
      (r.Next? && ins.op == AddToCell ==> r.next.tape[s.dp] == (s.tape[s.dp] + ins.data1) % 256) &&
      (r.Next? && ins.op == Store ==> r.next.tape[s.dp] == ins.data1 % 256) &&
      (r.Next? && ins.op == Input && s.input != [] ==>
         r.next.tape[s.dp] == s.input[0] && r.next.input == s.input[1..]) &&
      (r.Next? && ins.op == Input && s.input == [] ==>
         r.next.tape == s.tape && r.next.input == []) &&
      (r.Next? && ins.op == AddCells ==>
         var target := WrapSize(s.dp + ins.data1);
         r.next.tape[target] == (s.tape[target] + ins.data2 * s.tape[s.dp]) % 256 &&
         forall k :: 0 <= k < |s.tape| && k != target ==> r.next.tape[k] == s.tape[k])
  {
    var ins := prog[s.ip];
    if ins.op == AddToCell && s.dp < |s.tape| {
      AddByteMod(s.tape[s.dp], ins.data1);
    } else if ins.op == AddCells && s.dp < |s.tape| && WrapSize(s.dp + ins.data1) < |s.tape| {
      AddByteMod(s.tape[WrapSize(s.dp + ins.data1)], ins.data2 * s.tape[s.dp]);
    }
  }

  lemma ModAdd(a: int, b: int)
    ensures (a + b % 256) % 256 == (a + b) % 256
    ensures (a % 256 + b) % 256 == (a + b) % 256
  {
  }

  /** How a run ends: `ip` left the program, a step faulted (the state is
      the one whose instruction faulted), or the fuel ran out. */
  datatype RunResult = Halted(state: State) | Faulted(state: State) | OutOfFuel(state: State)

  /** At most `fuel` iterations of the loop of `run`, which stops exactly
      when `ip` is at or past the end of the program. */
  function RunFn(prog: seq<Instr>, s: State, fuel: nat): (r: RunResult)
    ensures r.Halted? <==> r.state.ip >= |prog|
    ensures |r.state.tape| == |s.tape|
    decreases fuel, 0
  {
    if s.ip >= |prog| then Halted(s)
    else if fuel == 0 then OutOfFuel(s)
    else Execute(prog, s, fuel - 1)
  }

  /** One iteration of the loop body, then the rest of the run with the
      remaining `fuel`. */
  function Execute(prog: seq<Instr>, s: State, fuel: nat): (r: RunResult)
    requires s.ip < |prog|
    ensures r.Halted? <==> r.state.ip >= |prog|
    ensures |r.state.tape| == |s.tape|
    decreases fuel, 1
  {
    match StepFn(prog, s)
    case Fault => Faulted(s)
    case Next(t) => RunFn(prog, t, fuel)
  }

  /** Once a run has stopped, more fuel does not change how it ends. */
  lemma {:induction false} RunMoreFuel(prog: seq<Instr>, s: State, fuel: nat, more: nat)
    requires !RunFn(prog, s, fuel).OutOfFuel? && fuel <= more
    ensures RunFn(prog, s, more) == RunFn(prog, s, fuel)
    decreases fuel
  {
    if s.ip < |prog| && fuel > 0 {
      assert RunFn(prog, s, fuel) == Execute(prog, s, fuel - 1);
      assert RunFn(prog, s, more) == Execute(prog, s, more - 1);
      match StepFn(prog, s)
      case Fault =>
      case Next(t) => RunMoreFuel(prog, t, fuel - 1, more - 1);
    }
  }

  lemma RunStep(prog: seq<Instr>, s: State, fuel: nat, t: State)
    requires s.ip < |prog| && fuel > 0 && StepFn(prog, s) == Next(t)
    ensures RunFn(prog, s, fuel) == RunFn(prog, t, fuel - 1)
  {
    assert RunFn(prog, s, fuel) == Execute(prog, s, fuel - 1);
  }

  /** One `add_to_dp` inside a run. */
  lemma RunMove(prog: seq<Instr>, s: State, fuel: nat)
    requires s.ip < |prog| && fuel > 0 && prog[s.ip].op == AddToDp
    ensures RunFn(prog, s, fuel) ==
              RunFn(prog, s.(ip := s.ip + 1, dp := WrapSize(s.dp + prog[s.ip].data1)), fuel - 1)
  {
    RunStep(prog, s, fuel, s.(ip := s.ip + 1, dp := WrapSize(s.dp + prog[s.ip].data1)));
  }

  /** One `add_to_cell` inside a run. */
  lemma RunAdd(prog: seq<Instr>, s: State, fuel: nat)
    requires s.ip < |prog| && fuel > 0 && prog[s.ip].op == AddToCell && s.dp < |s.tape|
    ensures RunFn(prog, s, fuel) ==
              RunFn(prog, s.(ip := s.ip + 1, tape := s.tape[s.dp := AddByte(s.tape[s.dp], ToUint8(prog[s.ip].data1))]),
                    fuel - 1)
  {
    RunStep(prog, s, fuel, s.(ip := s.ip + 1, tape := s.tape[s.dp := AddByte(s.tape[s.dp], ToUint8(prog[s.ip].data1))]));
  }

  /** One `store` inside a run. */
  lemma RunStore(prog: seq<Instr>, s: State, fuel: nat)
    requires s.ip < |prog| && fuel > 0 && prog[s.ip].op == Store && s.dp < |s.tape|
    ensures RunFn(prog, s, fuel) ==
              RunFn(prog, s.(ip := s.ip + 1, tape := s.tape[s.dp := ToUint8(prog[s.ip].data1)]), fuel - 1)
  {
    RunStep(prog, s, fuel, s.(ip := s.ip + 1, tape := s.tape[s.dp := ToUint8(prog[s.ip].data1)]));
  }

  /** One `add_cells` inside a run. */
  lemma RunAddCells(prog: seq<Instr>, s: State, fuel: nat)
    requires s.ip < |prog| && fuel > 0 && prog[s.ip].op == AddCells && s.dp < |s.tape|
    requires WrapSize(s.dp + prog[s.ip].data1) < |s.tape|
    ensures var target := WrapSize(s.dp + prog[s.ip].data1);
      RunFn(prog, s, fuel) ==
        RunFn(prog, s.(ip := s.ip + 1,
                       tape := s.tape[target := AddByte(s.tape[target], ToUint8(prog[s.ip].data2 * s.tape[s.dp]))]),
              fuel - 1)
  {
    var target := WrapSize(s.dp + prog[s.ip].data1);
    RunStep(prog, s, fuel, s.(ip := s.ip + 1,
                              tape := s.tape[target := AddByte(s.tape[target], ToUint8(prog[s.ip].data2 * s.tape[s.dp]))]));
  }

  /** One branch inside a run. */
  lemma RunBranch(prog: seq<Instr>, s: State, fuel: nat)
    requires s.ip < |prog| && fuel > 0 && IsBranch(prog[s.ip].op) && s.dp < |s.tape|
    ensures RunFn(prog, s, fuel) ==
              RunFn(prog, s.(ip := if Jumps(prog[s.ip].op, s.tape[s.dp]) then WrapSize(prog[s.ip].data1) else s.ip + 1),
                    fuel - 1)
  {
    RunStep(prog, s, fuel, s.(ip := if Jumps(prog[s.ip].op, s.tape[s.dp]) then WrapSize(prog[s.ip].data1) else s.ip + 1));
  }

  /** The multiply-accumulate window `[-` `>`^o1 `+`^d `<`^o2 `]` on its own,
      with the branch targets the resolver gives it. */
  function MultiplyLoop(o1: int, d: int, o2: int): seq<Instr> {
    [Instr(BranchIfZero, 6, 0), Instr(AddToCell, -1, 0), Instr(AddToDp, o1, 0),
     Instr(AddToCell, d, 0), Instr(AddToDp, o2, 0), Instr(BranchIfNonzero, 1, 0)]
  }

  /** What the optimizer turns that window into. */
  function MultiplyFused(o1: int, d: int): seq<Instr> {
    [Instr(AddCells, o1, d), Instr(Store, 0, 0)]
  }

  /** The first two body instructions of the multiply loop: decrement the
      counter, move to the target cell. */
  lemma MultiplyBodyStart(o1: int, d: int, o2: int, s: State, fuel: nat)
    requires |s.tape| == TAPE_SIZE && s.ip == 1 && fuel >= 2
    requires s.dp < TAPE_SIZE && 0 <= s.dp + o1 < TAPE_SIZE
    requires s.tape[s.dp] >= 1
    ensures RunFn(MultiplyLoop(o1, d, o2), s, fuel) ==
              RunFn(MultiplyLoop(o1, d, o2),
                    s.(ip := 3, dp := s.dp + o1, tape := s.tape[s.dp := s.tape[s.dp] - 1]), fuel - 2)
  {
    var loop := MultiplyLoop(o1, d, o2);
    var s1 := s.(ip := 2, tape := s.tape[s.dp := s.tape[s.dp] - 1]);
    assert ToUint8(-1) == 255;
    RunAdd(loop, s, fuel);
    RunMove(loop, s1, fuel - 1);
  }

  /** The last three body instructions of the multiply loop: add to the
      target cell, move back to the counter, test it. */
  lemma MultiplyBodyEnd(o1: int, d: int, o2: int, s: State, fuel: nat, counter: nat)
    requires |s.tape| == TAPE_SIZE && s.ip == 3 && fuel >= 3
    requires counter < TAPE_SIZE && s.dp == counter + o1 && s.dp < TAPE_SIZE && o1 != 0 && o1 + o2 == 0
    ensures RunFn(MultiplyLoop(o1, d, o2), s, fuel) ==
              RunFn(MultiplyLoop(o1, d, o2),
                    s.(ip := if s.tape[counter] == 0 then 6 else 1, dp := counter,
                       tape := s.tape[s.dp := AddByte(s.tape[s.dp], ToUint8(d))]),
                    fuel - 3)
  {
    var loop := MultiplyLoop(o1, d, o2);
    var s3 := s.(ip := 4, tape := s.tape[s.dp := AddByte(s.tape[s.dp], ToUint8(d))]);
    RunAdd(loop, s, fuel);
    var s4 := s3.(ip := 5, dp := counter);
    RunMove(loop, s3, fuel - 1);
    RunBranch(loop, s4, fuel - 2);
  }

  /** One pass through the body of the multiply loop, from its first body
      instruction to the instruction after its `]` or back to the first. */
  lemma MultiplyBody(o1: int, d: int, o2: int, s: State, fuel: nat)
    requires |s.tape| == TAPE_SIZE && s.ip == 1 && fuel >= 5
    requires s.dp < TAPE_SIZE && 0 <= s.dp + o1 < TAPE_SIZE && o1 != 0 && o1 + o2 == 0
    requires s.tape[s.dp] >= 1
    ensures var m := s.tape[s.dp] as int;
      var t := s.dp + o1;
      RunFn(MultiplyLoop(o1, d, o2), s, fuel) ==
        RunFn(MultiplyLoop(o1, d, o2),
              s.(ip := if m == 1 then 6 else 1,
                 tape := s.tape[s.dp := m - 1][t := AddByte(s.tape[t], ToUint8(d))]),
              fuel - 5)
  {
    var s2 := s.(ip := 3, dp := s.dp + o1, tape := s.tape[s.dp := s.tape[s.dp] - 1]);
    MultiplyBodyStart(o1, d, o2, s, fuel);
    MultiplyBodyEnd(o1, d, o2, s2, fuel - 2, s.dp);
  }

  /** `b` added to `x` `m` times with 8-bit wrap-around. */
  function AddTimes(x: uint8, b: uint8, m: nat): uint8
    decreases m
  {
    if m == 0 then x else AddTimes(AddByte(x, b), b, m - 1)
  }

  /** Adding `d` to a cell `m` times adds `m * d` modulo 256. */
  lemma {:induction false} AddTimesMod(x: uint8, d: int, m: nat)
    ensures AddTimes(x, ToUint8(d), m) == (x + m * d) % 256
    decreases m
  {
    if m > 0 {
      var x' := AddByte(x, ToUint8(d));
      var k := (m - 1) * d;
      AddTimesMod(x', d, m - 1);
      AddByteMod(x, d);
      ModAdd(x + d, k);
      MulPred(m, d);
    }
  }

  lemma MulPred(m: nat, d: int)
    requires m > 0
    ensures m * d == (m - 1) * d + d
  {
  }

  /** Updates at two different indices commute. */
  lemma UpdateSwap(a: seq<uint8>, i: nat, j: nat, u: uint8, v: uint8)
    requires i < |a| && j < |a| && i != j
    ensures a[i := u][j := v] == a[j := v][i := u]
  {
  }

  /** Later updates of the same indices win. */
  lemma UpdateOverwrite(a: seq<uint8>, i: nat, j: nat, u: uint8, v: uint8, w: uint8, z: uint8)
    requires i < |a| && j < |a| && i != j
    ensures a[i := u][j := v][j := w][i := z] == a[j := w][i := z]
  {
  }

  /** Writing back the values already there changes nothing. */
  lemma UpdateSame(a: seq<uint8>, i: nat, j: nat)
    requires i < |a| && j < |a|
    ensures a[j := a[j]][i := a[i]] == a
  {
  }

  /** The last pass through the body of the multiply loop, entered with the
      counter cell at 1. */
  lemma MultiplyLastPass(o1: int, d: int, o2: int, s: State)
    requires |s.tape| == TAPE_SIZE && s.ip == 1
    requires s.dp < TAPE_SIZE && 0 <= s.dp + o1 < TAPE_SIZE && o1 != 0 && o1 + o2 == 0
    requires s.tape[s.dp] == 1
    ensures RunFn(MultiplyLoop(o1, d, o2), s, 5) ==
              Halted(s.(ip := 6, tape := s.tape[s.dp + o1 := AddTimes(s.tape[s.dp + o1], ToUint8(d), 1)][s.dp := 0]))
  {
    var t := s.dp + o1;
    MultiplyBody(o1, d, o2, s, 5);
    UpdateSwap(s.tape, s.dp, t, 0, AddByte(s.tape[t], ToUint8(d)));
  }

  /** `m` passes through the body of the multiply loop, entered at its
      first body instruction with the counter cell at `m`. */
  lemma {:induction false} MultiplyIterations(o1: int, d: int, o2: int, s: State, m: nat)
    requires |s.tape| == TAPE_SIZE && s.ip == 1
    requires s.dp < TAPE_SIZE && 0 <= s.dp + o1 < TAPE_SIZE && o1 != 0 && o1 + o2 == 0
    requires 1 <= m && s.tape[s.dp] == m
    ensures RunFn(MultiplyLoop(o1, d, o2), s, 5 * m) ==
              Halted(s.(ip := 6, tape := s.tape[s.dp + o1 := AddTimes(s.tape[s.dp + o1], ToUint8(d), m)][s.dp := 0]))
    decreases m
  {
    if m == 1 {
      MultiplyLastPass(o1, d, o2, s);
    } else {
      var t := s.dp + o1;
      var x' := AddByte(s.tape[t], ToUint8(d));
      var s5 := s.(ip := 1, tape := s.tape[s.dp := m - 1][t := x']);
      MultiplyBody(o1, d, o2, s, 5 * m);
      MultiplyIterations(o1, d, o2, s5, m - 1);
      UpdateOverwrite(s.tape, s.dp, t, m - 1, x', AddTimes(x', ToUint8(d), m - 1), 0);
    }
  }

  /** The multiply loop run from its `[` with a counter of `n`: `1 + 5n`
      steps, after which `d` has been added `n` times to the cell `o1` away
      and the counter is 0. */
  lemma MultiplyLoopRun(s: State, o1: int, d: int, o2: int)
    requires |s.tape| == TAPE_SIZE && s.ip == 0
    requires s.dp < TAPE_SIZE && 0 <= s.dp + o1 < TAPE_SIZE && o1 != 0 && o1 + o2 == 0
    ensures var n := s.tape[s.dp] as int;
      RunFn(MultiplyLoop(o1, d, o2), s, 1 + 5 * n) ==
        Halted(s.(ip := 6, tape := s.tape[s.dp + o1 := AddTimes(s.tape[s.dp + o1], ToUint8(d), n)][s.dp := 0]))
  {
    var n := s.tape[s.dp] as int;
    var loop := MultiplyLoop(o1, d, o2);
    RunBranch(loop, s, 1 + 5 * n);
    if n == 0 {
      UpdateSame(s.tape, s.dp, s.dp + o1);
    } else {
      MultiplyIterations(o1, d, o2, s.(ip := 1), n);
    }
  }

  /** `add_cells(o1, d); store 0` run from its first instruction. */
  lemma MultiplyFusedRun(s: State, o1: int, d: int)
    requires |s.tape| == TAPE_SIZE && s.ip == 0
    requires s.dp < TAPE_SIZE && 0 <= s.dp + o1 < TAPE_SIZE
    ensures RunFn(MultiplyFused(o1, d), s, 2) ==
              Halted(s.(ip := 2, tape := s.tape[s.dp + o1 := AddByte(s.tape[s.dp + o1], ToUint8(d * s.tape[s.dp]))][s.dp := 0]))
  {
    var fused := MultiplyFused(o1, d);
    var t := s.dp + o1;
    var f1 := s.(ip := 1, tape := s.tape[t := AddByte(s.tape[t], ToUint8(d * s.tape[s.dp]))]);
    RunAddCells(fused, s, 2);
    RunStore(fused, f1, 1);
  }

  /** When the two pointer moves cancel, the fused form leaves the same
      machine state as running the loop (`1 + 5n` steps for a counter of
      `n`): the counter cell becomes 0 and `n * d` is added to the cell `o1`
      away, modulo 256. */
  lemma MultiplyLoopEquivalent(s: State, o1: int, d: int, o2: int)
    requires |s.tape| == TAPE_SIZE && s.ip == 0
    requires s.dp < TAPE_SIZE && 0 <= s.dp + o1 < TAPE_SIZE
    requires (o1 < 0) != (o2 < 0) && o1 + o2 == 0
    ensures var n := s.tape[s.dp] as int;
      var after := s.tape[s.dp + o1 := (s.tape[s.dp + o1] + n * d) % 256][s.dp := 0];
      RunFn(MultiplyLoop(o1, d, o2), s, 1 + 5 * n) == Halted(s.(ip := 6, tape := after)) &&
      RunFn(MultiplyFused(o1, d), s, 2) == Halted(s.(ip := 2, tape := after))
  {
    var n := s.tape[s.dp] as int;
    var x := s.tape[s.dp + o1];
    MultiplyLoopRun(s, o1, d, o2);
    MultiplyFusedRun(s, o1, d);
    AddTimesMod(x, d, n);
    AddByteMod(x, d * n);
    assert d * n == n * d;
  }

  /** The end of a multiply-loop pass whose moves do not cancel, when the
      cell it ends on is zero. */
  lemma DriftEnd(o1: int, d: int, o2: int, s: State, fuel: nat)
    requires |s.tape| == TAPE_SIZE && s.ip == 3 && fuel >= 3
    requires s.dp < TAPE_SIZE && 0 <= s.dp + o2 < TAPE_SIZE && o2 != 0 && s.tape[s.dp + o2] == 0
    ensures RunFn(MultiplyLoop(o1, d, o2), s, fuel) ==
              RunFn(MultiplyLoop(o1, d, o2),
                    s.(ip := 6, dp := s.dp + o2, tape := s.tape[s.dp := AddByte(s.tape[s.dp], ToUint8(d))]),
                    fuel - 3)
  {
    var loop := MultiplyLoop(o1, d, o2);
    var s3 := s.(ip := 4, tape := s.tape[s.dp := AddByte(s.tape[s.dp], ToUint8(d))]);
    RunAdd(loop, s, fuel);
    var s4 := s3.(ip := 5, dp := s.dp + o2);
    RunMove(loop, s3, fuel - 1);
    RunBranch(loop, s4, fuel - 2);
  }

  /** One pass of the multiply loop whose moves do not cancel, entered with
      a counter of 1 and a zero cell where the body ends. */
  lemma MultiplyDriftRun(s: State, o1: int, d: int, o2: int, fuel: nat)
    requires |s.tape| == TAPE_SIZE && s.ip == 0 && fuel >= 6
    requires s.dp < TAPE_SIZE && 0 <= s.dp + o1 < TAPE_SIZE && 0 <= s.dp + o1 + o2 < TAPE_SIZE
    requires o2 != 0 && s.tape[s.dp] == 1 && s.tape[s.dp + o1 + o2] == 0
    ensures RunFn(MultiplyLoop(o1, d, o2), s, fuel) ==
              Halted(s.(ip := 6, dp := s.dp + o1 + o2,
                        tape := s.tape[s.dp := 0][s.dp + o1 := AddByte(s.tape[s.dp := 0][s.dp + o1], ToUint8(d))]))
  {
    var loop := MultiplyLoop(o1, d, o2);
    var s1 := s.(ip := 1);
    var s3 := s1.(ip := 3, dp := s.dp + o1, tape := s.tape[s.dp := 0]);
    RunBranch(loop, s, fuel);
    MultiplyBodyStart(o1, d, o2, s1, fuel - 1);
    DriftEnd(o1, d, o2, s3, fuel - 3);
  }

  /** When the pointer moves do not cancel, which the optimizer does not
      check, the loop and its replacement leave `dp` in different places:
      with a counter of 1 and a zero cell where the loop body ends, the loop
      stops `o1 + o2` cells away while the fused form stays put. */
  lemma MultiplyLoopDrifts(s: State, o1: int, d: int, o2: int)
    requires |s.tape| == TAPE_SIZE && s.ip == 0
    requires s.dp < TAPE_SIZE && 0 <= s.dp + o1 < TAPE_SIZE && 0 <= s.dp + o1 + o2 < TAPE_SIZE
    requires (o1 < 0) != (o2 < 0) && o1 != 0 && o2 != 0 && o1 + o2 != 0
    requires s.tape[s.dp] == 1 && s.tape[s.dp + o1 + o2] == 0
    ensures RunFn(MultiplyLoop(o1, d, o2), s, 6).Halted?
    ensures RunFn(MultiplyLoop(o1, d, o2), s, 6).state.dp == s.dp + o1 + o2
    ensures RunFn(MultiplyFused(o1, d), s, 2).Halted?
    ensures RunFn(MultiplyFused(o1, d), s, 2).state.dp == s.dp
  {
    MultiplyDriftRun(s, o1, d, o2, 6);
    MultiplyFusedRun(s, o1, d);
  }

  /** The clear-cell window `[` `add_to_cell(d)` `]` on its own, resolved. */
  function ClearLoop(d: int): seq<Instr> {
    [Instr(BranchIfZero, 3, 0), Instr(AddToCell, d, 0), Instr(BranchIfNonzero, 1, 0)]
  }

  /** Inside the clear loop with an odd current cell. */
  ghost predicate OddInClearLoop(s: State) {
    s.ip <= 2 && s.dp < |s.tape| && s.tape[s.dp] % 2 == 1
  }

  /** Adding an even step keeps a cell odd. */
  lemma OddPlusEven(v: uint8, d: int)
    requires v % 2 == 1 && d % 2 == 0
    ensures AddByte(v, ToUint8(d)) % 2 == 1
  {
    var b := ToUint8(d);
    var k := d / 2;
    var q := d / 256;
    assert d == 2 * k;
    assert b == d - 256 * q;
    assert b == 2 * (k - 128 * q);
    var h := v / 2;
    assert v == 2 * h + 1;
    assert AddByte(v, b) == 2 * (h + k - 128 * q) + 1 || AddByte(v, b) == 2 * (h + k - 128 * q - 128) + 1;
  }

  lemma {:induction false} ClearLoopStaysOdd(d: int, s: State, fuel: nat)
    requires d % 2 == 0 && OddInClearLoop(s)
    ensures RunFn(ClearLoop(d), s, fuel).OutOfFuel?
    decreases fuel
  {
    var loop := ClearLoop(d);
    if fuel > 0 {
      if s.ip == 1 {
        var next := s.(ip := 2, tape := s.tape[s.dp := AddByte(s.tape[s.dp], ToUint8(d))]);
        RunAdd(loop, s, fuel);
        OddPlusEven(s.tape[s.dp], d);
        ClearLoopStaysOdd(d, next, fuel - 1);
      } else {
        RunBranch(loop, s, fuel);
        ClearLoopStaysOdd(d, s.(ip := 1), fuel - 1);
      }
    }
  }

  /** Why an even step is a looser test than the source intends: the loop
      with an even step never stops when the cell starts odd, while the
      `store 0` it is rewritten to always does. */
  lemma ClearLoopOddDiverges(d: int, s: State, fuel: nat)
    requires d % 2 == 0 && s.ip == 0 && s.dp < |s.tape| && s.tape[s.dp] % 2 == 1
    ensures RunFn(ClearLoop(d), s, fuel).OutOfFuel?
    ensures RunFn([Instr(Store, 0, 0)], s, 1) == Halted(s.(ip := 1, tape := s.tape[s.dp := 0]))
  {
    ClearLoopStaysOdd(d, s, fuel);
    RunStore([Instr(Store, 0, 0)], s, 1);
  }

  /** `[-]`, which the optimizer keeps, clears a cell holding `n` in
      `1 + 2n` steps. */
  lemma MinusLoopClears(s: State)
    requires s.ip == 0 && s.dp < |s.tape|
    ensures RunFn(ClearLoop(-1), s, 1 + 2 * (s.tape[s.dp] as int)) ==
              Halted(s.(ip := 3, tape := s.tape[s.dp := 0]))
  {
    var loop := ClearLoop(-1);
    var n := s.tape[s.dp] as int;
    RunBranch(loop, s, 1 + 2 * n);
    if n == 0 {
      assert s.tape[s.dp := 0] == s.tape;
    } else {
      MinusLoopBody(s.(ip := 1), n);
    }
  }

  lemma {:induction false} MinusLoopBody(s: State, m: nat)
    requires s.ip == 1 && s.dp < |s.tape| && 1 <= m && s.tape[s.dp] == m
    ensures RunFn(ClearLoop(-1), s, 2 * m) == Halted(s.(ip := 3, tape := s.tape[s.dp := 0]))
    decreases m
  {
    var loop := ClearLoop(-1);
    var s1 := s.(ip := 2, tape := s.tape[s.dp := m - 1]);
    assert ToUint8(-1) == 255;
    RunAdd(loop, s, 2 * m);
    var s2 := s1.(ip := if m - 1 != 0 then 1 else 3);
    RunBranch(loop, s1, 2 * m - 1);
    if m > 1 {
      MinusLoopBody(s2, m - 1);
      assert s2.tape[s.dp := 0] == s.tape[s.dp := 0];
    }
  }
}
