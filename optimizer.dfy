/** The peephole pass of `bf_interpreter::parse` (its second loop) as a
    function that builds the optimized program left to right: a clear-cell
    window becomes `store 0`, a multiply-accumulate window becomes
    `add_cells(o, d); store 0`, every other instruction is kept. */
module Optimizer {
  import opened Instructions
  import opened Brackets

  /** C++ `%` on `int`: the quotient is truncated toward zero, so the
      remainder has the sign of the dividend. */
  function CRem(a: int, b: int): (r: int)
    requires b > 0
    ensures -b < r < b
    ensures a >= 0 ==> r >= 0
    ensures a < 0 ==> r <= 0
  {
    if a >= 0 then a % b else -((-a) % b)
  }

  /** The C++ test `data1 % 2 == 0` holds exactly for even values; on
      `-1` (a plain `[-]`) the remainder is `-1`. */
  lemma CRemTwo(a: int)
    ensures CRem(a, 2) == 0 <==> a % 2 == 0
    ensures CRem(-1, 2) == -1
  {
  }

  /** The clear-cell window at `i`: `branch_if_zero`, `add_to_cell(d)` with
      `d % 2 == 0` in C++, `branch_if_nonzero`. */
  predicate ClearCellAt(p: seq<Instr>, i: nat) {
    i + 2 < |p| &&
    p[i].op == BranchIfZero &&
    p[i + 1].op == AddToCell && CRem(p[i + 1].data1, 2) == 0 &&
    p[i + 2].op == BranchIfNonzero
  }

  /** The multiply-accumulate window at `i`: `branch_if_zero`,
      `add_to_cell(-1)`, `add_to_dp(o1)`, `add_to_cell(d)`, `add_to_dp(o2)`,
      `branch_if_nonzero`, where exactly one of `o1`, `o2` is negative. */
  predicate MultiplyAt(p: seq<Instr>, i: nat) {
    i + 5 < |p| &&
    p[i].op == BranchIfZero &&
    p[i + 1].op == AddToCell && p[i + 1].data1 == -1 &&
    p[i + 5].op == BranchIfNonzero &&
    p[i + 2].op == AddToDp && p[i + 4].op == AddToDp && p[i + 3].op == AddToCell &&
    !(p[i + 2].data1 < 0 && p[i + 4].data1 < 0) &&
    !(p[i + 2].data1 >= 0 && p[i + 4].data1 >= 0)
  }

  /** The clear-cell test holds for exactly the even steps, so `[-]` fails
      it. */
  lemma ClearCellAtEven(p: seq<Instr>, i: nat)
    ensures ClearCellAt(p, i) <==>
              i + 2 < |p| && p[i].op == BranchIfZero && p[i + 1].op == AddToCell &&
              p[i + 1].data1 % 2 == 0 && p[i + 2].op == BranchIfNonzero
    ensures i + 2 < |p| && p[i + 1].data1 == -1 ==> !ClearCellAt(p, i)
  {
    if i + 2 < |p| {
      CRemTwo(p[i + 1].data1);
    }
  }

  /** The multiply test asks for the six opcodes, a decrement of 1, and
      pointer moves of opposite signs; it does not ask that they cancel. */
  lemma MultiplyAtSigns(p: seq<Instr>, i: nat)
    ensures MultiplyAt(p, i) <==>
              i + 5 < |p| &&
              Ops(p[i..i + 6]) == [BranchIfZero, AddToCell, AddToDp, AddToCell, AddToDp, BranchIfNonzero] &&
              p[i + 1].data1 == -1 &&
              (p[i + 2].data1 < 0) != (p[i + 4].data1 < 0)
    ensures MultiplyAt([Instr(BranchIfZero, 0, 0), Instr(AddToCell, -1, 0), Instr(AddToDp, 2, 0),
                        Instr(AddToCell, 1, 0), Instr(AddToDp, -1, 0), Instr(BranchIfNonzero, 0, 0)], 0)
  {
    if i + 5 < |p| {
      var w := Ops(p[i..i + 6]);
      assert w[0] == p[i].op && w[1] == p[i + 1].op && w[2] == p[i + 2].op;
      assert w[3] == p[i + 3].op && w[4] == p[i + 4].op && w[5] == p[i + 5].op;
    }
  }

  /** The `store 0` that replaces an instruction in place (its `data2` is
      left as it was). */
  function StoreZero(ins: Instr): Instr {
    ins.(op := Store, data1 := 0)
  }

  /** The `add_cells` written over the `[` of a multiply window. */
  function AddCellsFrom(p: seq<Instr>, i: nat): Instr
    requires i + 3 < |p|
  {
    p[i].(op := AddCells, data1 := p[i + 2].data1, data2 := p[i + 3].data1)
  }

  /** The program after the single left-to-right pass. A rewritten window is
      not scanned again: scanning resumes after it. */
  function Peephole(p: seq<Instr>): (r: seq<Instr>)
    ensures |r| <= |p|
    decreases |p|
  {
    if p == [] then []
    else if ClearCellAt(p, 0) then [StoreZero(p[0])] + Peephole(p[3..])
    else if MultiplyAt(p, 0) then [AddCellsFrom(p, 0), StoreZero(p[1])] + Peephole(p[6..])
    else [p[0]] + Peephole(p[1..])
  }

  /** What the pass does at index `i` of a program it has already processed
      up to `i`: the three outcomes of the `branch_if_zero` case. */
  lemma PeepholeUnfold(p: seq<Instr>, i: nat)
    requires i < |p|
    ensures ClearCellAt(p, i) ==>
              Peephole(p[i..]) == [StoreZero(p[i])] + Peephole(p[i + 3..])
    ensures !ClearCellAt(p, i) && MultiplyAt(p, i) ==>
              Peephole(p[i..]) == [AddCellsFrom(p, i), StoreZero(p[i + 1])] + Peephole(p[i + 6..])
    ensures !ClearCellAt(p, i) && !MultiplyAt(p, i) ==>
              Peephole(p[i..]) == [p[i]] + Peephole(p[i + 1..])
  {
    var q := p[i..];
    assert ClearCellAt(q, 0) <==> ClearCellAt(p, i);
    assert MultiplyAt(q, 0) <==> MultiplyAt(p, i);
    if ClearCellAt(p, i) {
      assert q[3..] == p[i + 3..];
    } else if MultiplyAt(p, i) {
      assert q[6..] == p[i + 6..];
      assert AddCellsFrom(q, 0) == AddCellsFrom(p, i);
    } else {
      assert q[1..] == p[i + 1..];
    }
  }

  /** The pass, split at `i`, once it has reached `i` with the prefix kept. */
  lemma PeepholeSplice(p: seq<Instr>, i: nat, mid: seq<Instr>, rest: seq<Instr>)
    requires i <= |p|
    requires forall j :: 0 <= j < i ==> !ClearCellAt(p, j) && !MultiplyAt(p, j)
    requires Peephole(p[i..]) == mid + rest
    ensures Peephole(p) == p[..i] + mid + rest
  {
    PeepholeCopies(p, i);
  }

  /** The rewrite at the first window of a program: everything before it is
      kept, a clear-cell window shrinks to one `store 0` (two instructions
      fewer) and a multiply window to `add_cells(o1, d), store 0` (four
      fewer); the pass then goes on after the window. */
  lemma PeepholeRewrite(p: seq<Instr>, i: nat)
    requires i < |p|
    requires forall j :: 0 <= j < i ==> !ClearCellAt(p, j) && !MultiplyAt(p, j)
    ensures ClearCellAt(p, i) ==>
              Peephole(p) == p[..i] + [StoreZero(p[i])] + Peephole(p[i + 3..])
    ensures !ClearCellAt(p, i) && MultiplyAt(p, i) ==>
              Peephole(p) == p[..i] + [AddCellsFrom(p, i), StoreZero(p[i + 1])] + Peephole(p[i + 6..])
    ensures !ClearCellAt(p, i) && !MultiplyAt(p, i) ==>
              Peephole(p) == p[..i + 1] + Peephole(p[i + 1..])
  {
    PeepholeUnfold(p, i);
    if ClearCellAt(p, i) {
      PeepholeSplice(p, i, [StoreZero(p[i])], Peephole(p[i + 3..]));
    } else if MultiplyAt(p, i) {
      PeepholeSplice(p, i, [AddCellsFrom(p, i), StoreZero(p[i + 1])], Peephole(p[i + 6..]));
    } else {
      PeepholeSplice(p, i, [p[i]], Peephole(p[i + 1..]));
      assert p[..i] + [p[i]] == p[..i + 1];
    }
  }

  /** The pass copies a `store` and moves on. */
  lemma PeepholeStoreHead(y: Instr, rest: seq<Instr>)
    ensures Peephole([StoreZero(y)] + rest) == [StoreZero(y)] + Peephole(rest)
  {
    assert ([StoreZero(y)] + rest)[1..] == rest;
  }

  /** Bookkeeping of the in-place pass: once the instruction at `i` has been
      replaced by its output `x` and the window after it by `rest`, the
      processed part grows by one. */
  lemma PeepholeAdvance(p: seq<Instr>, i: nat, x: Instr, rest: seq<Instr>)
    requires i < |p| && Peephole(p[i..]) == [x] + Peephole(rest)
    ensures var q := p[..i] + [x] + rest;
            q[..i + 1] + Peephole(q[i + 1..]) == p[..i] + Peephole(p[i..])
  {
    var q := p[..i] + [x] + rest;
    assert q[..i + 1] == p[..i] + [x];
    assert q[i + 1..] == rest;
  }

  lemma OpsTail(p: seq<Instr>)
    requires p != []
    ensures Ops(p)[1..] == Ops(p[1..]) && Ops(p)[0] == p[0].op
  {
  }

  /** One step of `Balanced` on a program. */
  lemma BalancedStep(p: seq<Instr>, depth: int)
    requires p != []
    ensures Balanced(Ops(p), depth) <==>
              depth + Delta(p[0].op) >= 0 && Balanced(Ops(p[1..]), depth + Delta(p[0].op))
  {
    OpsTail(p);
  }

  /** A clear-cell window is bracket-neutral. */
  lemma BalancedClearWindow(p: seq<Instr>, depth: int)
    requires depth >= 0 && ClearCellAt(p, 0)
    ensures Balanced(Ops(p), depth) <==> Balanced(Ops(p[3..]), depth)
  {
    BalancedStep(p, depth);
    BalancedStep(p[1..], depth + 1);
    BalancedStep(p[2..], depth + 1);
    assert p[1..][1..] == p[2..] && p[2..][1..] == p[3..];
  }

  /** A multiply window is bracket-neutral. */
  lemma BalancedMultiplyWindow(p: seq<Instr>, depth: int)
    requires depth >= 0 && MultiplyAt(p, 0)
    ensures Balanced(Ops(p), depth) <==> Balanced(Ops(p[6..]), depth)
  {
    BalancedStep(p, depth);
    BalancedStep(p[1..], depth + 1);
    BalancedStep(p[2..], depth + 1);
    BalancedStep(p[3..], depth + 1);
    BalancedStep(p[4..], depth + 1);
    BalancedStep(p[5..], depth + 1);
    assert p[1..][1..] == p[2..] && p[2..][1..] == p[3..] && p[3..][1..] == p[4..];
    assert p[4..][1..] == p[5..] && p[5..][1..] == p[6..];
  }

  /** Only balanced windows are removed, so the pass neither creates nor
      repairs an unbalanced bracket. */
  lemma {:induction false} PeepholeBalanced(p: seq<Instr>, depth: int)
    requires depth >= 0
    ensures Balanced(Ops(p), depth) <==> Balanced(Ops(Peephole(p)), depth)
    decreases |p|
  {
    if p != [] {
      var q := Peephole(p);
      BalancedStep(q, depth);
      if ClearCellAt(p, 0) {
        BalancedClearWindow(p, depth);
        assert q[1..] == Peephole(p[3..]);
        PeepholeBalanced(p[3..], depth);
      } else if MultiplyAt(p, 0) {
        BalancedMultiplyWindow(p, depth);
        BalancedStep(q[1..], depth);
        assert q[1..][1..] == Peephole(p[6..]);
        PeepholeBalanced(p[6..], depth);
      } else {
        BalancedStep(p, depth);
        assert q[1..] == Peephole(p[1..]);
        if depth + Delta(p[0].op) >= 0 {
          PeepholeBalanced(p[1..], depth + Delta(p[0].op));
        }
      }
    }
  }

  /** Each window is a loop whose `]` is the partner of its `[`, so a
      rewrite deletes a `[` together with its matching `]`. */
  lemma WindowIsLoop(p: seq<Instr>, i: nat)
    requires ClearCellAt(p, i) || MultiplyAt(p, i)
    ensures ClearCellAt(p, i) ==> ForwardScanStops(Ops(p), i, i + 2)
    ensures MultiplyAt(p, i) ==> ForwardScanStops(Ops(p), i, i + 5)
  {
    var s := Ops(p);
    CountStart(s, i);
    ForwardCountStep(s, i, i);
    ForwardCountStep(s, i, i + 1);
    if MultiplyAt(p, i) {
      ForwardCountStep(s, i, i + 2);
      ForwardCountStep(s, i, i + 3);
      ForwardCountStep(s, i, i + 4);
    }
  }

  /** A prefix without a window is copied as it stands. */
  lemma {:induction false} PeepholeCopies(p: seq<Instr>, n: nat)
    requires n <= |p|
    requires forall i :: 0 <= i < n ==> !ClearCellAt(p, i) && !MultiplyAt(p, i)
    ensures Peephole(p) == p[..n] + Peephole(p[n..])
  {
    if n == 0 {
      assert p[0..] == p;
    } else {
      PeepholeCopies(p, n - 1);
      PeepholeUnfold(p, n - 1);
      assert p[..n - 1] + [p[n - 1]] == p[..n];
    }
  }

  /** A program without a window comes out of the pass unchanged. */
  lemma PeepholeIdentity(p: seq<Instr>)
    requires forall i :: 0 <= i < |p| ==> !ClearCellAt(p, i) && !MultiplyAt(p, i)
    ensures Peephole(p) == p
  {
    PeepholeCopies(p, |p|);
    assert p[|p|..] == [];
  }

  /** A clear loop with an odd step, `[-]` in particular, is not a window:
      it is copied as it stands. */
  lemma OddClearLoopKept(p: seq<Instr>)
    requires |p| >= 3
    requires p[0].op == BranchIfZero && p[1].op == AddToCell && p[2].op == BranchIfNonzero
    requires p[1].data1 % 2 == 1
    ensures Peephole(p) == p[..3] + Peephole(p[3..])
  {
    CRemTwo(p[1].data1);
    PeepholeCopies(p, 3);
  }
}
