/**
 * Shorthands of the master table for operands and their roles.
 */
module RowNotation {
  import opened X86
  import opened Rows

  const D: Role := Role(true, false)
  const U: Role := Role(false, true)
  const DU: Role := Role(true, true)

  function R(s: OpndSize): OpndDesc { OpndDesc({GPReg}, s, NoReg) }
  function RM(s: OpndSize): OpndDesc { OpndDesc({GPReg, Mem}, s, NoReg) }
  function I(s: OpndSize): OpndDesc { OpndDesc({Imm}, s, NoReg) }
  function M(s: OpndSize): OpndDesc { OpndDesc({Mem}, s, NoReg) }
  function Fp(s: OpndSize): OpndDesc { OpndDesc({FPReg}, s, NoReg) }

  /** A fixed general-purpose register. */
  function Fix(s: OpndSize, index: bits3): OpndDesc { OpndDesc({GPReg}, s, Reg(GPReg, s, index)) }
}
