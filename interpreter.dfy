/** The `bf_interpreter` object: the raw program text, the instruction list
    that `parse` builds in three passes, and the machine state that `run`
    updates one instruction at a time. Each method is proved against the
    function of the module that specifies it. */
module Interpreter {
  import opened Instructions
  import opened Brackets
  import opened Lexer
  import opened Optimizer
  import opened Machine

  /** `j` is the index `find_matched` returns for the bracket at `k`. */
  ghost predicate IsPartner(s: seq<Opcode>, k: int, j: int) {
    0 <= k < |s| &&
    ((s[k] == BranchIfZero && ForwardScanStops(s, k, j)) ||
     (s[k] == BranchIfNonzero && BackwardScanStops(s, j, k)))
  }

  /** `after` differs from `before` at most in the `data1` of brackets. */
  ghost predicate SameShape(before: seq<Instr>, after: seq<Instr>) {
    |after| == |before| &&
    forall k :: 0 <= k < |before| ==>
      after[k].op == before[k].op && after[k].data2 == before[k].data2 &&
      (!IsBranch(before[k].op) ==> after[k].data1 == before[k].data1)
  }

  /** The third pass has run to completion: every bracket's `data1` is one
      past the index of its partner. */
  ghost predicate Resolved(before: seq<Instr>, after: seq<Instr>) {
    SameShape(before, after) &&
    forall k :: 0 <= k < |before| && IsBranch(before[k].op) ==>
      IsPartner(Ops(before), k, after[k].data1 - 1)
  }

  /** The third pass has handled the instructions before `i`: their
      brackets point past their partners, the rest is untouched. */
  ghost predicate ResolvedUpTo(before: seq<Instr>, after: seq<Instr>, i: int) {
    0 <= i <= |before| &&
    SameShape(before, after) &&
    (forall k :: i <= k < |before| ==> after[k] == before[k]) &&
    (forall k :: 0 <= k < i && IsBranch(before[k].op) ==> IsPartner(Ops(before), k, after[k].data1 - 1)) &&
    (forall k :: 0 <= k < i ==> !Unmatched(Ops(before), k))
  }

  /** One iteration of the third pass, given the partner found for a
      bracket at `i`. */
  lemma ResolveAdvance(before: seq<Instr>, after: seq<Instr>, i: nat, j: int, next: seq<Instr>)
    requires ResolvedUpTo(before, after, i) && i < |before|
    requires IsBranch(before[i].op) ==> IsPartner(Ops(before), i, j) && next == after[i := after[i].(data1 := j + 1)]
    requires !IsBranch(before[i].op) ==> next == after
    ensures ResolvedUpTo(before, next, i + 1)
  {
    var s := Ops(before);
    if IsBranch(before[i].op) {
      if s[i] == BranchIfZero {
        assert ForwardCount(s, i, j) == 0;
      } else {
        assert BackwardCount(s, i, j) == 0;
      }
    }
    assert !Unmatched(s, i);
  }

  lemma SameShapeOps(before: seq<Instr>, after: seq<Instr>)
    requires SameShape(before, after)
    ensures Ops(after) == Ops(before)
  {
  }

  /** A scan stops at one place only. */
  lemma PartnerUnique(s: seq<Opcode>, k: int, j: int, j': int)
    requires IsPartner(s, k, j) && IsPartner(s, k, j')
    ensures j == j'
  {
  }

  /** After resolution the jump targets pair up: a `[` at `k` jumps just past
      a `]` whose own target is just past `k`, and conversely. */
  lemma ResolvedTargetsPair(before: seq<Instr>, after: seq<Instr>, k: nat)
    requires Resolved(before, after) && k < |before| && IsBranch(before[k].op)
    ensures var j := after[k].data1 - 1;
            0 <= j < |after| && j != k && IsBranch(after[j].op) && after[j].op != after[k].op &&
            after[j].data1 - 1 == k
  {
    var s := Ops(before);
    var j := after[k].data1 - 1;
    assert IsPartner(s, k, j);
    if s[k] == BranchIfZero {
      ScanEnds(s, k, j);
      MatchSymmetric(s, k, j);
      assert IsPartner(s, j, k);
      PartnerUnique(s, j, k, after[j].data1 - 1);
    } else {
      ScanEnds(s, j, k);
      MatchSymmetric(s, j, k);
      assert IsPartner(s, j, k);
      PartnerUnique(s, j, k, after[j].data1 - 1);
    }
  }

  /** A multiply-accumulate loop `[-` `>`^o1 `+`^d `<`^o2 `]` as the first
      pass leaves it: the brackets' `data1` is still 0. */
  function MultiplyWindow(o1: int, d: int, o2: int): seq<Instr> {
    [Instr(BranchIfZero, 0, 0), Instr(AddToCell, -1, 0), Instr(AddToDp, o1, 0),
     Instr(AddToCell, d, 0), Instr(AddToDp, o2, 0), Instr(BranchIfNonzero, 0, 0)]
  }

  /** A clear loop `[` `+`^d `]` as the first pass leaves it. */
  function ClearWindow(d: int): seq<Instr> {
    [Instr(BranchIfZero, 0, 0), Instr(AddToCell, d, 0), Instr(BranchIfNonzero, 0, 0)]
  }

  /** The second pass fuses a multiply window whose moves have opposite
      signs into the two instructions whose run the machine model compares
      with the loop's. */
  lemma MultiplyWindowFuses(o1: int, d: int, o2: int)
    requires (o1 < 0) != (o2 < 0)
    ensures Peephole(MultiplyWindow(o1, d, o2)) == MultiplyFused(o1, d)
  {
    var w := MultiplyWindow(o1, d, o2);
    assert !ClearCellAt(w, 0) && MultiplyAt(w, 0);
    assert w[6..] == [];
  }

  /** Moves of the same sign are not fused: the window survives the second
      pass. */
  lemma MultiplyWindowKept(o1: int, d: int, o2: int)
    requires (o1 < 0) == (o2 < 0)
    ensures Peephole(MultiplyWindow(o1, d, o2)) == MultiplyWindow(o1, d, o2)
  {
    var w := MultiplyWindow(o1, d, o2);
    forall j | 0 <= j < |w|
      ensures !ClearCellAt(w, j) && !MultiplyAt(w, j)
    {
    }
    PeepholeIdentity(w);
  }

  /** The third pass turns an unfused multiply window into the loop the
      machine model runs: the `[` points past the `]` and back. */
  lemma MultiplyWindowResolves(o1: int, d: int, o2: int)
    ensures Resolved(MultiplyWindow(o1, d, o2), MultiplyLoop(o1, d, o2))
  {
    var w := MultiplyWindow(o1, d, o2);
    var s := Ops(w);
    assert s == [BranchIfZero, AddToCell, AddToDp, AddToCell, AddToDp, BranchIfNonzero];
    CountStart(s, 0);
    ForwardCountStep(s, 0, 0);
    ForwardCountStep(s, 0, 1);
    ForwardCountStep(s, 0, 2);
    ForwardCountStep(s, 0, 3);
    ForwardCountStep(s, 0, 4);
    assert ForwardScanStops(s, 0, 5);
    MatchSymmetric(s, 0, 5);
  }

  /** A clear window with an even step is replaced by one `store 0`. */
  lemma ClearWindowStores(d: int)
    requires d % 2 == 0
    ensures Peephole(ClearWindow(d)) == [Instr(Store, 0, 0)]
  {
    var w := ClearWindow(d);
    CRemTwo(d);
    assert ClearCellAt(w, 0);
    assert w[3..] == [];
  }

  /** A clear window with an odd step, `[-]` among them, is kept. */
  lemma ClearWindowKept(d: int)
    requires d % 2 == 1
    ensures Peephole(ClearWindow(d)) == ClearWindow(d)
  {
    var w := ClearWindow(d);
    OddClearLoopKept(w);
    assert w[3..] == [];
  }

  /** The third pass turns a kept clear window into the loop the machine
      model runs. */
  lemma ClearWindowResolves(d: int)
    ensures Resolved(ClearWindow(d), ClearLoop(d))
  {
    var w := ClearWindow(d);
    var s := Ops(w);
    assert s == [BranchIfZero, AddToCell, BranchIfNonzero];
    CountStart(s, 0);
    ForwardCountStep(s, 0, 0);
    ForwardCountStep(s, 0, 1);
    assert ForwardScanStops(s, 0, 2);
    MatchSymmetric(s, 0, 2);
  }

  class BfInterpreter {
    /** `raw_program[0..raw_size]`, the bytes of the program file. */
    const rawProgram: seq<uint8>
    /** The 65536-cell tape. */
    const memory: array<uint8>
    var program: seq<Instr>
    var ip: nat
    var dp: size_t
    /** Bytes written to standard output so far. */
    var output: seq<uint8>
    /** Bytes standard input has still to deliver. */
    var input: seq<uint8>

    /** The machine state `run` works on. */
    function Snapshot(): State
      reads this, memory
    {
      State(ip, dp, memory[..], output, input)
    }

    /** The constructor, given the file's bytes: `ip = dp = 0` and a tape of
        65536 zero cells. */
    constructor(source: seq<uint8>, stdin: seq<uint8>)
      ensures rawProgram == source && program == []
      ensures Snapshot() == InitialState(stdin)
      ensures fresh(memory)
    {
      rawProgram := source;
      memory := new uint8[TAPE_SIZE](_ => 0);
      program := [];
      ip := 0;
      dp := 0;
      output := [];
      input := stdin;
      new;
      assert memory[..] == InitialState(stdin).tape;
    }

    /** `find_run`: the length of the run of equal bytes at `start`. */
    method FindRun(start: nat) returns (count: nat)
      requires start < |rawProgram|
      ensures count == RunLength(rawProgram, start)
    {
      var character := rawProgram[start];
      var index := start;
      count := 0;
      while index < |rawProgram| && rawProgram[index] == character
        invariant start <= index <= |rawProgram| && count == index - start
        invariant forall j :: start <= j < index ==> rawProgram[j] == character
      {
        index := index + 1;
        count := count + 1;
      }
      RunUnique(rawProgram, start, count);
    }

    /** `find_matched`: scan from the bracket at `start` towards its partner,
        counting brackets. `None` stands for a scan that would leave the
        program (undefined behaviour in the source). */
    method FindMatched(start: nat) returns (r: Option<nat>)
      requires start < |program| && IsBranch(program[start].op)
      ensures program[start].op == BranchIfZero ==>
                (r.Some? ==> ForwardScanStops(Ops(program), start, r.value)) &&
                (r.None? ==> ForwardUnmatched(Ops(program), start))
      ensures program[start].op == BranchIfNonzero ==>
                (r.Some? ==> BackwardScanStops(Ops(program), r.value, start)) &&
                (r.None? ==> BackwardUnmatched(Ops(program), start))
    {
      ghost var s := Ops(program);
      var needed: nat := 1;
      var direction: int := if program[start].op == BranchIfZero then 1 else -1;
      var index: nat := start;
      CountStart(s, start);
      while needed != 0
        invariant index < |program|
        invariant direction == 1 <==> program[start].op == BranchIfZero
        invariant direction == 1 || direction == -1
        invariant direction == 1 ==>
                    start <= index && needed == ForwardCount(s, start, index) &&
                    forall m :: start <= m < index ==> ForwardCount(s, start, m) > 0
        invariant direction == -1 ==>
                    index <= start && needed == BackwardCount(s, start, index) &&
                    forall m :: index < m <= start ==> BackwardCount(s, start, m) > 0
        decreases if direction == 1 then |program| - index else index
      {
        if index + direction < 0 || index + direction >= |program| {
          return None;
        }
        if direction == 1 {
          ForwardCountStep(s, start, index);
        } else {
          BackwardCountStep(s, start, index);
        }
        index := index + direction;
        if program[index].op == BranchIfZero {
          needed := needed + direction;
        } else if program[index].op == BranchIfNonzero {
          needed := needed - direction;
        }
      }
      return Some(index);
    }

    /** The first loop of `parse`: lex the text, folding runs. */
    method LexPass()
      modifies this`program
      ensures program == old(program) + Lex(rawProgram)
    {
      var i: nat := 0;
      while i < |rawProgram|
        invariant i <= |rawProgram|
        invariant program + LexFrom(rawProgram, i) == old(program) + Lex(rawProgram)
      {
        var c := rawProgram[i];
        var ins: Instr;
        if c == GT {
          var k := FindRun(i);
          ins := Instr(AddToDp, k, 0);
          i := i + ins.data1 - 1;
        } else if c == LT {
          var k := FindRun(i);
          ins := Instr(AddToDp, -1 * (k as int), 0);
          i := i - (ins.data1 + 1);
        } else if c == PLUS {
          var k := FindRun(i);
          ins := Instr(AddToCell, k, 0);
          i := i + ins.data1 - 1;
        } else if c == MINUS {
          var k := FindRun(i);
          ins := Instr(AddToCell, -1 * (k as int), 0);
          i := i - (ins.data1 + 1);
        } else if c == DOT {
          ins := Instr(Output, 0, 0);
        } else if c == COMMA {
          ins := Instr(Input, 0, 0);
        } else if c == LBRACKET {
          ins := Instr(BranchIfZero, 0, 0);
        } else if c == RBRACKET {
          ins := Instr(BranchIfNonzero, 0, 0);
        } else {
          i := i + 1;
          continue;
        }
        program := program + [ins];
        i := i + 1;
      }
    }

    /** The second loop of `parse`: rewrite clear-cell and multiply windows in
        place, in one left-to-right pass. */
    method PeepholePass()
      modifies this`program
      ensures program == Peephole(old(program))
    {
      var i: nat := 0;
      while i < |program|
        invariant i <= |program|
        invariant program[..i] + Peephole(program[i..]) == Peephole(old(program))
        decreases |program| - i
      {
        ghost var p := program;
        PeepholeUnfold(p, i);
        if program[i].op == BranchIfZero && ClearCellAt(program, i) {
          program := program[..i] + [StoreZero(program[i])] + program[i + 3..];
          PeepholeAdvance(p, i, StoreZero(p[i]), p[i + 3..]);
        } else if program[i].op == BranchIfZero && MultiplyAt(program, i) {
          program := program[..i] + [AddCellsFrom(program, i)] + ([StoreZero(program[i + 1])] + program[i + 6..]);
          PeepholeStoreHead(p[i + 1], p[i + 6..]);
          PeepholeAdvance(p, i, AddCellsFrom(p, i), [StoreZero(p[i + 1])] + p[i + 6..]);
        } else {
          assert program == p[..i] + [p[i]] + p[i + 1..];
          PeepholeAdvance(p, i, p[i], p[i + 1..]);
        }
        i := i + 1;
      }
      assert program[i..] == [];
    }

    /** The third loop of `parse`: point every bracket one past its partner.
        The result is `false`, and the remaining brackets are left as they
        are, at the first bracket whose scan would leave the program. */
    method ResolvePass() returns (ok: bool)
      modifies this`program
      ensures SameShape(old(program), program)
      ensures ok <==> Balanced(Ops(old(program)), 0)
      ensures ok ==> Resolved(old(program), program)
    {
      ghost var s := Ops(program);
      var i: nat := 0;
      while i < |program|
        invariant ResolvedUpTo(old(program), program, i)
      {
        SameShapeOps(old(program), program);
        ghost var before := program;
        if IsBranch(program[i].op) {
          var matched := FindMatched(i);
          if matched.None? {
            assert Unmatched(s, i);
            BalancedIffAllMatched(s);
            return false;
          }
          program := program[i := program[i].(data1 := matched.value + 1)];
          ResolveAdvance(old(program), before, i, matched.value, program);
        } else {
          ResolveAdvance(old(program), before, i, 0, program);
        }
        i := i + 1;
      }
      BalancedIffAllMatched(s);
      ok := true;
    }

    /** `parse`: lex, optimize, resolve. The result says whether every
        bracket found its partner. */
    method Parse() returns (ok: bool)
      modifies this`program
      ensures SameShape(Peephole(old(program) + Lex(rawProgram)), program)
      ensures ok <==> Balanced(Ops(old(program) + Lex(rawProgram)), 0)
      ensures ok ==> Resolved(Peephole(old(program) + Lex(rawProgram)), program)
      ensures old(program) == [] ==> (ok <==> Balanced(TextBrackets(rawProgram), 0))
    {
      ghost var lexed := program + Lex(rawProgram);
      LexPass();
      PeepholePass();
      ok := ResolvePass();
      PeepholeBalanced(lexed, 0);
      if old(program) == [] {
        assert lexed == Lex(rawProgram);
        LexBrackets(rawProgram);
        BalancedBrackets(Ops(lexed), 0);
      }
    }

    /** One iteration of the loop of `run`. `true` stands for an access
        outside the tape (undefined behaviour in the source); nothing is
        changed then. */
    method Step() returns (fault: bool)
      requires ip < |program|
      modifies this`ip, this`dp, this`output, this`input, memory
      ensures fault <==> StepFn(program, old(Snapshot())).Fault?
      ensures fault ==> Snapshot() == old(Snapshot())
      ensures !fault ==> Snapshot() == StepFn(program, old(Snapshot())).next
    {
      var ins := program[ip];
      if ins.op != AddToDp && dp >= memory.Length {
        return true;
      }
      if ins.op == AddCells && WrapSize(dp + ins.data1) >= memory.Length {
        return true;
      }
      ip := ip + 1;
      match ins.op {
      case AddToDp =>
        dp := WrapSize(dp + ins.data1);
      case AddToCell =>
        memory[dp] := AddByte(memory[dp], ToUint8(ins.data1));
      case Output =>
        output := output + [memory[dp]];
      case Input =>
        if input != [] {
          memory[dp] := input[0];
          input := input[1..];
        }
      case Store =>
        memory[dp] := ToUint8(ins.data1);
      case AddCells =>
        var target := WrapSize(dp + ins.data1);
        memory[target] := AddByte(memory[target], ToUint8(ins.data2 * memory[dp]));
      case BranchIfZero =>
        if memory[dp] == 0 {
          ip := WrapSize(ins.data1);
        }
      case BranchIfNonzero =>
        if memory[dp] != 0 {
          ip := WrapSize(ins.data1);
        }
      }
      return false;
    }

    /** `run`, bounded by `fuel` instructions: the loop ends exactly where the
        specification function's run does, in the same state. */
    method Run(fuel: nat) returns (r: RunResult)
      modifies this`ip, this`dp, this`output, this`input, memory
      ensures r == RunFn(program, old(Snapshot()), fuel)
      ensures Snapshot() == r.state
    {
      var left := fuel;
      while ip < |program|
        invariant RunFn(program, Snapshot(), left) == RunFn(program, old(Snapshot()), fuel)
        decreases left
      {
        if left == 0 {
          return OutOfFuel(Snapshot());
        }
        ghost var s := Snapshot();
        var fault := Step();
        if fault {
          assert RunFn(program, s, left) == Execute(program, s, left - 1);
          return Faulted(Snapshot());
        }
        RunStep(program, s, left, Snapshot());
        left := left - 1;
      }
      return Halted(Snapshot());
    }
  }
}
