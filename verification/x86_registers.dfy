/**
 * Registers, operating modes and the error taxonomy of the x86 JIT backend's
 * code builder.  Register numbers follow the Intel encoding: 0..7 are the
 * legacy registers, 8..15 the ones that need a REX extension bit.
 */
module Registers {

  type Reg = r: int | 0 <= r < 16

  /** The SIB scale field: the index is multiplied by 2^scale. */
  type Scale = s: int | 0 <= s < 4

  const EAX: Reg := 0
  const ECX: Reg := 1
  const EDX: Reg := 2
  const EBX: Reg := 3
  const ESP: Reg := 4
  const EBP: Reg := 5
  const ESI: Reg := 6
  const EDI: Reg := 7
  const R8: Reg := 8
  const R9: Reg := 9
  const R10: Reg := 10
  const R11: Reg := 11
  const R12: Reg := 12
  const R13: Reg := 13
  const R14: Reg := 14
  const R15: Reg := 15

  /** The register the 64-bit builder reserves for materialising constants. */
  const SCRATCH: Reg := R11

  /** The 3 bits of a register number that go into ModRM, SIB or the opcode. */
  function Low3(r: Reg): int
  {
    r % 8
  }

  /** A register whose fourth bit goes into a REX prefix. */
  predicate Extended(r: Reg)
  {
    r >= 8
  }

  lemma RegSplit(r: Reg)
    ensures 0 <= Low3(r) < 8
    ensures r == Low3(r) + (if Extended(r) then 8 else 0)
  {
  }

  datatype Mode = Mode32 | Mode64

  /** The operand-size choices of the modelled instructions: 16 bits, or the machine word. */
  datatype Size = Size16 | SizeWord

  /** Why an operation cannot be encoded; nothing is emitted when one is raised. */
  datatype EncodeError =
    | UnsupportedOperand
    | UnsupportedOperandCombination
    | InvalidScratchUse
    | ImmediateOutOfRange

  /** In 32-bit mode only the eight legacy registers exist. */
  predicate RegAllowed(mode: Mode, r: Reg)
  {
    mode == Mode64 || r < 8
  }
}
