# Brainfuck interpreter (`bf_interpreter`) in Dafny

A model of the `bf_interpreter` class of `src/main.cpp`, with proofs. The class works in four stages:

1. **Lexing.** `find_run` and the first loop of `parse` fold each run of `>` `<` `+` `-` into one `add_to_dp` / `add_to_cell` instruction carrying a signed count. Each of `.` `,` `[` `]` becomes one instruction, and every other byte is a comment.
2. **Peephole pass.** The second loop of `parse` makes one left-to-right pass and edits the instruction vector in place:
   - it rewrites the clear-cell loop `[` `add_to_cell(d)` `]` (C++ `d % 2 == 0`) to `store 0`;
   - it rewrites the multiply loop `[` `-` `>o1` `+d` `<o2` `]` (the pointer moves have opposite signs) to `add_cells(o1, d); store 0`.
3. **Branch resolution.** `find_matched` and the third loop of `parse` store, in each bracket's `data1`, one past the index of its partner. The partner is found by a nesting-counter scan.
4. **Execution.** `run` is a fetch / increment-`ip` / execute loop over `ip`, `dp` and a 65536-cell byte tape.

The project has six modules, one file each:

- `Instructions` (`instructions.dfy`) holds the `instruction` record of `src/main.cpp:12-27` and the integer types. The record is the datatype `Instr(op, data1, data2)`: `op` is one of the eight opcodes of the source's enumeration (`Opcode`), and `data1`, `data2` are unbounded integers. The integer types are `uint8`, and `size_t` with wrap-around modulo 2^64.
- `Brackets` (`brackets.dfy`) holds the nesting counter of `find_matched` and the proof that every scan succeeds exactly when the brackets are balanced.
- `Lexer` (`lexer.dfy`) holds the lexer as a function, with its round trip to the command text.
- `Optimizer` (`optimizer.dfy`) holds the peephole pass as a function that builds the optimized program left to right, with its framing and balance lemmas.
- `Machine` (`machine.dfy`) holds one iteration of `run` as a function on a machine state, the fuel-bounded run, and the behaviour of the two rewritten loop shapes.
- `Interpreter` (`interpreter.dfy`) holds the class `BfInterpreter`. Its fields are the raw text, the tape as an `array`, the instruction list, `ip`, `dp`, and the two streams. Its methods mirror `find_run`, `find_matched`, the three loops of `parse`, one iteration of `run`, and `run` itself. Each method is proved against the module functions above.

What the model makes explicit about the code:

- C++ `%` truncates toward zero. So the clear-cell test `data1 % 2 == 0` holds exactly for even steps, and a plain `[-]` (`data1 == -1`, remainder `-1`) is not rewritten. The model reproduces this: `OddClearLoopKept` and `MinusLoopClears`.
- The multiply rewrite checks only that the two pointer moves have opposite signs, never that they cancel. The model reproduces this too:
  - `MultiplyLoopEquivalent` proves the rewrite correct when `o1 + o2 == 0`;
  - `MultiplyLoopDrifts` shows a loop whose moves do not cancel ending with `dp` elsewhere than its replacement leaves it.
- `dp += data1`, `dp + data1` and `ip = data1` are `size_t` arithmetic: they are reduced modulo 2^64.
- A tape access at `dp >= 65536` is undefined behaviour in the source. The model turns it into a `Fault`, and there is no wrap at 65536.
- `static_cast<uint8_t>` and `uint8_t +=` are reduction modulo 256.
- A bracket with no partner makes `find_matched` leave the vector, which is undefined behaviour in the source. Here the scan returns `None` and parsing reports `false`.
- `parse` is `void` in the source. The model's `Parse` returns whether every bracket was matched.

`ip` is a `nat` here. In the source it is a `size_t`, but every value it takes (`ip + 1` below the program's length, or `data1` reduced modulo 2^64) is below 2^64.

## Model

| member | source | states |
|---|---|---|
| Instructions.WrapSize | src/main.cpp:222 | conversion to `size_t`: the identity on values already in range |
| Instructions.ToUint8 | src/main.cpp:223 | `static_cast<uint8_t>`: the identity on byte values |
| Instructions.AddByte | src/main.cpp:223 | `uint8_t +=` of two bytes is their sum modulo 256 |
| Instructions.AddByteMod | src/main.cpp:223 | byte addition of a cast `int` is the sum modulo 256 |
| Interpreter.BfInterpreter.constructor | src/main.cpp:51-55 | `ip = dp = 0`, 65536 zero cells, empty program, the given text and input |
| Machine.InitialState | src/main.cpp:51-55 | the start state: `ip = dp = 0`, empty output, 65536 cells all zero |
| Lexer.RunLength | src/main.cpp:81-89 | the length `k` of the run at `start` is at least 1 and fits in the text, all bytes in `[start, start+k)` are equal, and the byte at `start+k`, if any, differs |
| Lexer.RunUnique | src/main.cpp:81-89 | a maximal run has exactly one length |
| Interpreter.BfInterpreter.FindRun | src/main.cpp:81-89 | the `count`/index loop returns exactly the maximal run length at `start` |
| Lexer.FoldRun | src/main.cpp:112-145 | a run of `k >= 1` bytes folds to one instruction of the run's opcode, with `data1 = +k` or `-k` (never 0) and `data2 = 0`, that spells back to exactly `k` copies of the byte |
| Lexer.LexFrom | src/main.cpp:108-172 | every emitted instruction has `data2 = 0`; runs carry a non-zero count, and `.` `,` `[` `]` carry `data1 = 0`; no `store`/`add_cells` is emitted |
| Interpreter.BfInterpreter.LexPass | src/main.cpp:108-172 | the lex loop (with `i += data1 - 1` and `i -= data1 + 1`) appends exactly the lexer's output to `program` |
| Lexer.LexRoundTrip | src/main.cpp:108-172 | spelling the lexed program back out gives the text with every non-command byte removed: folding loses nothing and invents nothing |
| Lexer.LexFromRoundTrip | src/main.cpp:108-172 | the same round trip for the suffix lexed from any index |
| Lexer.LexBrackets | src/main.cpp:157-166 | bracket instructions correspond one for one, in order, to the brackets of the text |
| Lexer.LexFromBrackets | src/main.cpp:157-166 | the same correspondence for the suffix lexed from any index |
| Lexer.LexSingleRun | src/main.cpp:112-145 | a text that is one run of `k` equal bytes `>` `<` `+` `-` lexes to a single instruction carrying `+k` or `-k` |
| Optimizer.CRem | src/main.cpp:177 | C++ `%`: the remainder lies strictly between `-b` and `b` and has the sign of the dividend |
| Optimizer.CRemTwo | src/main.cpp:177 | `data1 % 2 == 0` in C++ holds exactly for even `data1`, and `-1 % 2` is `-1` |
| Optimizer.ClearCellAtEven | src/main.cpp:177 | the clear-cell test holds exactly for `[`, `add_to_cell(d)` with even `d`, `]`; it fails when `d == -1` |
| Optimizer.MultiplyAtSigns | src/main.cpp:184-190 | the multiply test holds exactly for `[`, `add_to_cell(-1)`, `add_to_dp`, `add_to_cell`, `add_to_dp`, `]` whose two moves have opposite signs, for instance `[->>+<]`, whose moves do not cancel |
| Optimizer.Peephole | src/main.cpp:174-204 | the pass never lengthens the program |
| Optimizer.PeepholeRewrite | src/main.cpp:174-204 | at the first window of a program, all before it is kept; a clear-cell window shrinks to one `store 0` and a multiply window to `add_cells, store 0`, and the pass resumes after the window; otherwise one instruction is kept and the pass moves on |
| Interpreter.BfInterpreter.PeepholePass | src/main.cpp:174-204 | the in-place pass with `erase` leaves exactly the reference pass's output |
| Optimizer.PeepholeBalanced | src/main.cpp:174-204 | the pass neither creates nor repairs an unbalanced bracket, at any starting depth |
| Optimizer.WindowIsLoop | src/main.cpp:176-190 | in each window the closing `]` is the partner that the `find_matched` scan finds for the opening `[` |
| Optimizer.PeepholeCopies | src/main.cpp:174-204 | a prefix with no window is copied unchanged and in order |
| Optimizer.PeepholeIdentity | src/main.cpp:174-204 | a program with no window comes out unchanged |
| Optimizer.OddClearLoopKept | src/main.cpp:177 | a clear loop with an odd step, `[-]` in particular, is copied as it stands |
| Brackets.ForwardCountStep | src/main.cpp:95-102 | one forward step of the scan adds the bracket's weight to `needed` |
| Brackets.BackwardCountStep | src/main.cpp:95-102 | one backward step of the scan subtracts the bracket's weight from `needed` |
| Brackets.ScanEnds | src/main.cpp:91-105 | a forward scan runs from a `[` to a `]`, and a backward scan from a `]` to a `[` |
| Brackets.MatchSymmetric | src/main.cpp:91-105 | the forward scan from `i` stops at `j` exactly when the backward scan from `j` stops at `i` |
| Brackets.BalancedPrefixes | src/main.cpp:91-105 | balance means every prefix depth stays non-negative and the final depth is zero |
| Brackets.BalancedIffAllMatched | src/main.cpp:91-105 | every scan stays inside the program exactly when the brackets are balanced |
| Brackets.BalancedBrackets | src/main.cpp:91-105 | balance depends on the bracket instructions alone |
| Interpreter.BfInterpreter.FindMatched | src/main.cpp:91-105 | the `needed`/`direction` loop returns the first index where the counter reaches zero, forward from a `[` or backward from a `]`, or `None` when the scan would leave the program |
| Interpreter.PartnerUnique | src/main.cpp:95-102 | a scan stops at one index only |
| Interpreter.BfInterpreter.ResolvePass | src/main.cpp:206-214 | succeeds exactly when the brackets are balanced; then each bracket's `data1` is its partner's index plus one; nothing but bracket `data1` changes |
| Interpreter.ResolvedTargetsPair | src/main.cpp:206-214 | after resolution jump targets pair up: a bracket's target is one past a bracket of the other kind, whose own target is one past the first |
| Interpreter.BfInterpreter.Parse | src/main.cpp:107-215 | `parse` leaves the resolved form of the optimized lexed text; it succeeds exactly when the brackets of the text are balanced |
| Machine.StepFn | src/main.cpp:218-245 | one iteration never changes the tape length |
| Machine.StepFrame | src/main.cpp:218-245 | one iteration faults exactly on an out-of-tape access; `ip` becomes `data1` on a taken branch and `ip + 1` otherwise; each opcode changes only what it names: `dp` to `dp + data1` mod 2^64 for `add_to_dp`, `memory[dp]` to old value + `data1` mod 256, `data1` mod 256 for `store`, `memory[dp+data1]` plus `data2 * memory[dp]` mod 256 for `add_cells`, one byte appended for `output`, and for `input` the next input byte stored in `memory[dp]` and consumed (nothing changes when input is exhausted) |
| Interpreter.BfInterpreter.Step | src/main.cpp:219-244 | one loop iteration on the object's fields and tape leaves exactly the state of the step function, or faults and changes nothing exactly when that function faults |
| Machine.RunFn | src/main.cpp:217-246 | the run halts exactly when `ip` is at or past the end of the program; the tape length is kept |
| Machine.Execute | src/main.cpp:219-244 | one iteration followed by the rest of the run: it halts exactly when `ip` leaves the program |
| Machine.RunMoreFuel | src/main.cpp:217-246 | once a run has stopped, more fuel does not change how it ends |
| Interpreter.BfInterpreter.Run | src/main.cpp:217-246 | the `while (ip < size)` loop ends exactly as the fuel-bounded run does, in the same state |
| Machine.AddTimesMod | src/main.cpp:223 | adding the byte of `d` to a cell `m` times gives the cell plus `m * d` modulo 256 |
| Machine.MultiplyIterations | src/main.cpp:184-199 | `m` passes through the body of a multiply loop, entered with the counter at `m`, add `d` to the cell `o1` away `m` times, clear the counter and leave the loop |
| Machine.MultiplyLoopRun | src/main.cpp:184-199 | the multiply loop with a counter of `n` halts after `1 + 5n` steps, having added `d` `n` times to the cell `o1` away and cleared the counter |
| Machine.MultiplyFusedRun | src/main.cpp:192-199 | `add_cells(o1, d); store 0` adds `d * memory[dp]` to the cell `o1` away and clears the counter |
| Machine.MultiplyLoopEquivalent | src/main.cpp:184-199 | with `o1 == -o2` and the touched cells in range, the six-instruction loop and its replacement halt with the same tape |
| Machine.MultiplyLoopDrifts | src/main.cpp:187-190 | with moves of opposite sign that do not cancel, the loop stops `o1 + o2` cells away from where the replacement leaves `dp` |
| Machine.ClearLoopOddDiverges | src/main.cpp:177 | with an even step and an odd cell, the clear loop never halts, whereas the `store 0` it is rewritten to halts with the cell at zero |
| Interpreter.MultiplyWindowFuses | src/main.cpp:184-199 | a lexed multiply loop whose moves have opposite signs comes out of the second pass as exactly `add_cells(o1, d), store 0`, the pair `MultiplyFusedRun` runs |
| Interpreter.MultiplyWindowKept | src/main.cpp:184-190 | a multiply-shaped loop whose moves have the same sign comes out of the second pass unchanged |
| Interpreter.MultiplyWindowResolves | src/main.cpp:206-214 | resolving a lexed multiply loop gives exactly the six-instruction loop that `MultiplyLoopRun` runs |
| Interpreter.ClearWindowStores | src/main.cpp:177-180 | a lexed clear loop with an even step comes out of the second pass as the single instruction `store 0` |
| Interpreter.ClearWindowKept | src/main.cpp:177 | a lexed clear loop with an odd step comes out of the second pass unchanged |
| Interpreter.ClearWindowResolves | src/main.cpp:206-214 | resolving a lexed clear loop gives exactly the three-instruction loop that `MinusLoopClears` and `ClearLoopOddDiverges` run |
| Machine.MinusLoopClears | src/main.cpp:177 | `[-]`, which is not rewritten, clears a cell holding `n` in `1 + 2n` steps |

## Left out

- File loading in the constructor (`ifstream`, `tellg`, `read`) is not modelled. The constructor takes the file's bytes as a parameter.
- `print`, which dumps the instruction list to a file, only inspects; it is not modelled.
- `main` is not modelled: its hard-coded file names, `chrono` timing and `system("pause")` are outside the interpreter.
- Standard input: `cin >> memory[dp]` is formatted extraction, which skips whitespace. Here input is an abstract byte sequence whose next byte is stored; once it is exhausted, the cell is left unchanged. Whitespace skipping is not modelled.
- Standard output is the sequence of bytes written; stream formatting and buffering are not modelled.
- `int` overflow of `data1` is not modelled: a run of 2^31 or more bytes, or `data2 * memory[dp]` beyond 32 bits, are computed on unbounded integers.
- The conversion of `-1 * find_run(i)`, a `size_t`, to `int` is taken to be `-k`.
- The conversion of `find_matched(i) + 1` to `int` is likewise taken to be exact.
- Interpreter.BfInterpreter.Run: is bounded by a fuel count, because the source loop need not terminate. Running out of fuel is a separate outcome.
- Interpreter.BfInterpreter.ResolvePass: when a bracket has no partner, undefined behaviour in the source, the pass stops there and reports `false`. It then states only that no opcode and no non-bracket `data1` changed, not which brackets were already resolved.
- Interpreter.BfInterpreter.Step: an out-of-tape access, undefined behaviour in the source, is a fault that leaves the state unchanged. The source would have already advanced `ip` and then done something unspecified.
- Machine.MultiplyLoopDrifts: exhibits the drift for a counter of 1 only, not for every counter value.
