/**
 * Rows of the compiled opcode table (EncoderBase::OpcodeDesc): raw opcode bytes,
 * at most two operand-dependent elements, and a description of the operands.
 */
module Rows {
  import opened Basics
  import opened X86

  /** Location mask, size and, for implicit operands, the fixed register. */
  datatype OpndDesc = OpndDesc(kinds: set<OpndKind>, size: OpndSize, reg: RegName)

  const NO_DESC: OpndDesc := OpndDesc({}, NullSize, NoReg)

  datatype Role = Role(def: bool, use: bool)

  /** Operand-dependent opcode elements: /r, /digit, ib iw id, cb cw cd, +rb +rw +rd, +i. */
  datatype Aux =
    | NoAux
    | SlashR
    | SlashNum(digit: bits3)
    | ImmField(width: Width)
    | RelField(width: Width)
    | PlusReg(width: Width, base: byte)
    | PlusI(base: byte)
  {
    /** The elements the decoder accepts whatever byte it finds. */
    predicate Immediate() {
      ImmField? || RelField?
    }

    /** Number of operands the element accounts for when encoding. */
    function Consumes(): nat {
      match this
      case NoAux => 0
      case SlashR => 2
      case _ => 1
    }
  }

  datatype RawDesc = RawDesc(
    opcode: seq<byte>,
    aux0: Aux,
    aux1: Aux,
    opnds: seq<OpndDesc>,
    firstOpnd: nat,
    roles: seq<Role>,
    decoderOnly: bool)

  /** Three operand descriptions, at most four raw bytes, at most three roles. */
  type OpcodeDesc = d: RawDesc | |d.opnds| == 3 && |d.opcode| <= 4 && |d.roles| <= 3
    witness RawDesc([0x90], NoAux, NoAux, [NO_DESC, NO_DESC, NO_DESC], 0, [], false)

  /** Every opcode of every mnemonic; mnemonic 0 is the null mnemonic. */
  type Table = seq<seq<OpcodeDesc>>

  /** Location: the single bit of the operand's kind is in the row's mask (no bit is in every mask). */
  predicate KindFits(d: OpndDesc, op: Operand) {
    op.Kind().NullKind? || op.Kind() in d.kinds
  }

  predicate StrictFits(d: OpndDesc, op: Operand) {
    KindFits(d, op) && d.size == op.Size()
  }

  /** try_match with strict sizes. */
  predicate StrictMatch(row: OpcodeDesc, ops: seq<Operand>) {
    |row.roles| == |ops| && forall j :: 0 <= j < |ops| ==> StrictFits(row.opnds[j], ops[j])
  }

  /** try_match where only the sizes of defined operands count. */
  predicate LooseMatch(row: OpcodeDesc, ops: seq<Operand>) {
    |row.roles| == |ops| &&
    forall j :: 0 <= j < |ops| ==>
      KindFits(row.opnds[j], ops[j]) && (row.roles[j].def ==> row.opnds[j].size == ops[j].Size())
  }
}
