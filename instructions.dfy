/** Shared value types of the interpreter: bytes, the `size_t` pointer width,
    and the `instruction` record of `bf_interpreter` (opcode plus two ints). */
module Instructions {

  /** An `uint8_t`: a source byte or a tape cell. */
  type uint8 = x: int | 0 <= x < 256

  /** Number of values of the 64-bit `size_t` used for `ip`, `dp` and indices. */
  const SIZE_T_MODULUS: int := 0x1_0000_0000_0000_0000

  /** A `size_t` value. */
  type size_t = x: int | 0 <= x < SIZE_T_MODULUS

  /** Number of cells of the tape allocated by the constructor. */
  const TAPE_SIZE: nat := 65536

  /** Conversion of an `int` to `size_t` (reduction modulo 2^64). */
  function WrapSize(x: int): (r: size_t)
    ensures 0 <= x < SIZE_T_MODULUS ==> r == x
  {
    x % SIZE_T_MODULUS
  }

  /** `static_cast<uint8_t>` of an `int`: reduction modulo 256. */
  function ToUint8(x: int): (r: uint8)
    ensures 0 <= x < 256 ==> r == x
  {
    x % 256
  }

  /** `uint8_t` addition: the sum wraps around at 256. */
  function AddByte(a: uint8, b: uint8): (r: uint8)
    ensures r == (a + b) % 256
  {
    if a + b < 256 then a + b else a + b - 256
  }

  lemma AddByteMod(a: uint8, b: int)
    ensures AddByte(a, ToUint8(b)) == (a + b) % 256
  {
  }

  /** `instruction::opcode`. */
  datatype Opcode =
    | AddToDp
    | AddToCell
    | Output
    | Input
    | BranchIfZero
    | BranchIfNonzero
    | Store
    | AddCells

  /** `instruction`: an opcode and the two payload fields `data1`, `data2`. */
  datatype Instr = Instr(op: Opcode, data1: int, data2: int)

  predicate IsBranch(op: Opcode) {
    op == BranchIfZero || op == BranchIfNonzero
  }

  /** The opcodes of a program, in order. */
  function Ops(p: seq<Instr>): seq<Opcode> {
    seq(|p|, k requires 0 <= k < |p| => p[k].op)
  }

  datatype Option<T> = None | Some(value: T)
}
