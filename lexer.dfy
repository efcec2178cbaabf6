/** The first loop of `bf_interpreter::parse` and `find_run`, as functions:
    runs of `>` `<` `+` `-` are folded into one instruction with a signed
    count, `.` `,` `[` `]` become one instruction each, anything else is a
    comment. */
module Lexer {
  import opened Instructions
  import opened Brackets

  const GT: uint8 := '>' as int
  const LT: uint8 := '<' as int
  const PLUS: uint8 := '+' as int
  const MINUS: uint8 := '-' as int
  const DOT: uint8 := '.' as int
  const COMMA: uint8 := ',' as int
  const LBRACKET: uint8 := '[' as int
  const RBRACKET: uint8 := ']' as int

  /** The four commands whose runs are folded. */
  predicate IsRunChar(c: uint8) {
    c == GT || c == LT || c == PLUS || c == MINUS
  }

  /** The four commands that become one instruction each. */
  predicate IsSingleChar(c: uint8) {
    c == DOT || c == COMMA || c == LBRACKET || c == RBRACKET
  }

  predicate IsCommand(c: uint8) {
    IsRunChar(c) || IsSingleChar(c)
  }

  /** `raw[start..start + k]` is a maximal run of one byte. */
  ghost predicate IsRun(raw: seq<uint8>, start: int, k: int) {
    0 <= start && 1 <= k && start + k <= |raw| &&
    (forall j :: start <= j < start + k ==> raw[j] == raw[start]) &&
    (start + k < |raw| ==> raw[start + k] != raw[start])
  }

  /** Length of the run that starts at `start` (what `find_run` counts). */
  function RunLength(raw: seq<uint8>, start: nat): (k: nat)
    requires start < |raw|
    ensures IsRun(raw, start, k)
    decreases |raw| - start
  {
    if start + 1 < |raw| && raw[start + 1] == raw[start] then 1 + RunLength(raw, start + 1) else 1
  }

  /** A maximal run has only one length. */
  lemma RunUnique(raw: seq<uint8>, start: nat, k: int)
    requires start < |raw| && IsRun(raw, start, k)
    ensures k == RunLength(raw, start)
  {
  }

  /** The opcode emitted for `.` `,` `[` `]`. */
  function SingleOp(c: uint8): Opcode
    requires IsSingleChar(c)
  {
    if c == DOT then Output
    else if c == COMMA then Input
    else if c == LBRACKET then BranchIfZero
    else BranchIfNonzero
  }

  /** The instruction emitted for a run of `k` bytes `c`: `add_to_dp` for
      `>` `<`, `add_to_cell` for `+` `-`, with `data1` = k or -k. */
  function FoldRun(c: uint8, k: int): (r: Instr)
    requires IsRunChar(c)
    ensures k >= 1 ==> IsLexeme(r) && Spell(r) == Repeat(c, k)
  {
    Instr(if c == GT || c == LT then AddToDp else AddToCell,
          if c == GT || c == PLUS then k else -k,
          0)
  }

  /** The form of every instruction the lexer emits. */
  predicate IsLexeme(ins: Instr) {
    ins.data2 == 0 &&
    (ins.op == AddToDp || ins.op == AddToCell ==> ins.data1 != 0) &&
    (ins.op != AddToDp && ins.op != AddToCell ==> ins.data1 == 0) &&
    ins.op != Store && ins.op != AddCells
  }

  /** The instructions the lex loop emits from index `i` on. */
  function LexFrom(raw: seq<uint8>, i: nat): (r: seq<Instr>)
    requires i <= |raw|
    ensures forall k :: 0 <= k < |r| ==> IsLexeme(r[k])
    decreases |raw| - i
  {
    if i == |raw| then []
    else if IsRunChar(raw[i]) then
      var k := RunLength(raw, i);
      [FoldRun(raw[i], k)] + LexFrom(raw, i + k)
    else if IsSingleChar(raw[i]) then
      [Instr(SingleOp(raw[i]), 0, 0)] + LexFrom(raw, i + 1)
    else
      LexFrom(raw, i + 1)
  }

  function Lex(raw: seq<uint8>): seq<Instr> {
    LexFrom(raw, 0)
  }

  /** `n` copies of `c`. */
  function Repeat(c: uint8, n: nat): seq<uint8> {
    seq(n, _ => c)
  }

  /** The command text an instruction stands for. */
  function Spell(ins: Instr): seq<uint8> {
    match ins.op
    case AddToDp => if ins.data1 >= 0 then Repeat(GT, ins.data1) else Repeat(LT, -ins.data1)
    case AddToCell => if ins.data1 >= 0 then Repeat(PLUS, ins.data1) else Repeat(MINUS, -ins.data1)
    case Output => [DOT]
    case Input => [COMMA]
    case BranchIfZero => [LBRACKET]
    case BranchIfNonzero => [RBRACKET]
    case Store => []
    case AddCells => []
  }

  /** Unfolds a program back into command text. */
  function Expand(p: seq<Instr>): seq<uint8> {
    if p == [] then [] else Spell(p[0]) + Expand(p[1..])
  }

  /** The source text with every comment byte removed. */
  function Commands(raw: seq<uint8>): seq<uint8> {
    if raw == [] then [] else (if IsCommand(raw[0]) then [raw[0]] else []) + Commands(raw[1..])
  }

  /** The loop brackets of the source text, as opcodes. */
  function TextBrackets(raw: seq<uint8>): seq<Opcode> {
    if raw == [] then []
    else (if raw[0] == LBRACKET then [BranchIfZero]
          else if raw[0] == RBRACKET then [BranchIfNonzero]
          else []) + TextBrackets(raw[1..])
  }

  lemma {:induction false} CommandsRun(raw: seq<uint8>, c: uint8, i: nat, j: nat)
    requires i <= j <= |raw| && IsCommand(c)
    requires forall m :: i <= m < j ==> raw[m] == c
    ensures Commands(raw[i..]) == Repeat(c, j - i) + Commands(raw[j..])
    decreases j - i
  {
    if i < j {
      assert raw[i..][1..] == raw[i + 1..];
      CommandsRun(raw, c, i + 1, j);
      assert [c] + Repeat(c, j - (i + 1)) == Repeat(c, j - i);
    }
  }

  lemma {:induction false} TextBracketsSkip(raw: seq<uint8>, i: nat, j: nat)
    requires i <= j <= |raw|
    requires forall m :: i <= m < j ==> raw[m] != LBRACKET && raw[m] != RBRACKET
    ensures TextBrackets(raw[i..]) == TextBrackets(raw[j..])
    decreases j - i
  {
    if i < j {
      assert raw[i..][1..] == raw[i + 1..];
      TextBracketsSkip(raw, i + 1, j);
    }
  }

  lemma ExpandCons(x: Instr, rest: seq<Instr>)
    ensures Expand([x] + rest) == Spell(x) + Expand(rest)
  {
    assert ([x] + rest)[1..] == rest;
  }

  lemma CommandsCons(raw: seq<uint8>, i: nat)
    requires i < |raw|
    ensures Commands(raw[i..]) == (if IsCommand(raw[i]) then [raw[i]] else []) + Commands(raw[i + 1..])
  {
    assert raw[i..][1..] == raw[i + 1..];
  }

  /** Lexing is undone by `Expand`, up to the comments it drops: every
      command byte is accounted for, in order, and nothing else. */
  lemma {:induction false} LexFromRoundTrip(raw: seq<uint8>, i: nat)
    requires i <= |raw|
    ensures Expand(LexFrom(raw, i)) == Commands(raw[i..])
    decreases |raw| - i
  {
    if i < |raw| {
      var c := raw[i];
      if IsRunChar(c) {
        var k := RunLength(raw, i);
        LexFromRoundTrip(raw, i + k);
        ExpandCons(FoldRun(c, k), LexFrom(raw, i + k));
        CommandsRun(raw, c, i, i + k);
      } else if IsSingleChar(c) {
        LexFromRoundTrip(raw, i + 1);
        ExpandCons(Instr(SingleOp(c), 0, 0), LexFrom(raw, i + 1));
        CommandsCons(raw, i);
      } else {
        LexFromRoundTrip(raw, i + 1);
        CommandsCons(raw, i);
      }
    }
  }

  lemma LexRoundTrip(raw: seq<uint8>)
    ensures Expand(Lex(raw)) == Commands(raw)
  {
    LexFromRoundTrip(raw, 0);
    assert raw[0..] == raw;
  }

  lemma BracketOpsCons(x: Instr, rest: seq<Instr>)
    ensures BracketOps(Ops([x] + rest)) ==
              (if IsBranch(x.op) then [x.op] else []) + BracketOps(Ops(rest))
  {
    assert Ops([x] + rest) == [x.op] + Ops(rest);
    assert Ops([x] + rest)[1..] == Ops(rest);
  }

  lemma TextBracketsCons(raw: seq<uint8>, i: nat)
    requires i < |raw|
    ensures TextBrackets(raw[i..]) ==
              (if raw[i] == LBRACKET then [BranchIfZero]
               else if raw[i] == RBRACKET then [BranchIfNonzero]
               else []) + TextBrackets(raw[i + 1..])
  {
    assert raw[i..][1..] == raw[i + 1..];
  }

  /** A folded run holds no bracket, and neither does its text. */
  lemma LexFromBracketsRun(raw: seq<uint8>, i: nat)
    requires i < |raw| && IsRunChar(raw[i])
    ensures var k := RunLength(raw, i);
            BracketOps(Ops(LexFrom(raw, i))) == BracketOps(Ops(LexFrom(raw, i + k))) &&
            TextBrackets(raw[i..]) == TextBrackets(raw[i + k..])
  {
    var k := RunLength(raw, i);
    var rest := LexFrom(raw, i + k);
    assert LexFrom(raw, i) == [FoldRun(raw[i], k)] + rest;
    BracketOpsCons(FoldRun(raw[i], k), rest);
    TextBracketsSkip(raw, i, i + k);
  }

  /** Any other byte yields its bracket, if it is one, on both sides. */
  lemma LexFromBracketsOther(raw: seq<uint8>, i: nat)
    requires i < |raw| && !IsRunChar(raw[i])
    ensures var b := if raw[i] == LBRACKET then [BranchIfZero]
                     else if raw[i] == RBRACKET then [BranchIfNonzero]
                     else [];
            BracketOps(Ops(LexFrom(raw, i))) == b + BracketOps(Ops(LexFrom(raw, i + 1))) &&
            TextBrackets(raw[i..]) == b + TextBrackets(raw[i + 1..])
  {
    var c := raw[i];
    var rest := LexFrom(raw, i + 1);
    TextBracketsCons(raw, i);
    if IsSingleChar(c) {
      assert LexFrom(raw, i) == [Instr(SingleOp(c), 0, 0)] + rest;
      BracketOpsCons(Instr(SingleOp(c), 0, 0), rest);
    } else {
      assert LexFrom(raw, i) == rest;
    }
  }

  /** Bracket instructions correspond one for one, in order, to the
      brackets of the source text. */
  lemma {:induction false} LexFromBrackets(raw: seq<uint8>, i: nat)
    requires i <= |raw|
    ensures BracketOps(Ops(LexFrom(raw, i))) == TextBrackets(raw[i..])
    decreases |raw| - i
  {
    if i < |raw| {
      if IsRunChar(raw[i]) {
        LexFromBracketsRun(raw, i);
        LexFromBrackets(raw, i + RunLength(raw, i));
      } else {
        LexFromBracketsOther(raw, i);
        LexFromBrackets(raw, i + 1);
      }
    }
  }

  lemma LexBrackets(raw: seq<uint8>)
    ensures BracketOps(Ops(Lex(raw))) == TextBrackets(raw)
  {
    LexFromBrackets(raw, 0);
    assert raw[0..] == raw;
  }

  /** A text made of one run of `k` equal movement or increment bytes lexes
      to exactly one instruction carrying +k or -k. */
  lemma LexSingleRun(raw: seq<uint8>)
    requires |raw| > 0 && IsRunChar(raw[0])
    requires forall j :: 0 <= j < |raw| ==> raw[j] == raw[0]
    ensures Lex(raw) == [FoldRun(raw[0], |raw|)]
  {
    RunUnique(raw, 0, |raw|);
    assert LexFrom(raw, |raw|) == [];
  }
}
