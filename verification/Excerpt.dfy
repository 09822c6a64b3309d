/**
 * A part of the master table in the order of its mnemonics: the arithmetic family, the
 * conditional jumps, JMP, LEA, MOV and the shifts, with the rows for EM64T that this build
 * skips.  The tables built from it satisfy the hypotheses of the round trip.
 */
module Excerpt {
  import opened Basics
  import opened X86
  import opened Rows
  import opened RowNotation
  import opened TableBuilder
  import opened Decoder
  import opened RoundTrip

  // ----- kinds of rows -----

  function Acc(s: OpndSize): OpndDesc { Fix(s, 0) }

  const CL: OpndDesc := Fix(Size8, 1)

  function Prefix16(on: bool): seq<Elem> { if on then [Byte(0x66)] else [] }

  /** op /r with the r/m operand first or second. */
  function SlashRow(p: bool, op: byte, s: OpndSize, rmFirst: bool, roles: seq<Role>): OpcodeInfo {
    OpcodeInfo(AnyPlatform, Prefix16(p) + [Byte(op), Part(SlashR)],
               if rmFirst then [RM(s), R(s), NO_DESC] else [R(s), RM(s), NO_DESC], roles)
  }

  /** op /digit with an immediate, written out or left to the compiler. */
  function DigitImmRow(p: bool, op: byte, d: bits3, s: OpndSize, w: Width, written: bool, roles: seq<Role>)
    : OpcodeInfo
  {
    OpcodeInfo(AnyPlatform, Prefix16(p) + [Byte(op), Part(SlashNum(d))] + (if written then [Part(ImmField(w))] else []),
               [RM(s), I(w.ImmSize()), NO_DESC], roles)
  }

  /** op /digit. */
  function DigitRow(platf: Platform, p: bool, op: byte, d: bits3, s: OpndSize, roles: seq<Role>): OpcodeInfo {
    OpcodeInfo(platf, Prefix16(p) + [Byte(op), Part(SlashNum(d))], [RM(s), NO_DESC, NO_DESC], roles)
  }

  /** op /digit with CL as an implicit second operand. */
  function ClRow(p: bool, op: byte, d: bits3, s: OpndSize): OpcodeInfo {
    OpcodeInfo(AnyPlatform, Prefix16(p) + [Byte(op), Part(SlashNum(d))], [RM(s), CL, NO_DESC], [DU, U])
  }

  /** LEA with a memory operand of a given size. */
  function LeaRow(s: OpndSize): OpcodeInfo {
    OpcodeInfo(AnyPlatform, [Byte(0x8D), Part(SlashR)], [R(Size32), M(s), NO_DESC], [D, U])
  }

  /** op + register, with an immediate of the register's size left to the compiler. */
  function PlusRow(p: bool, base: byte, w: Width): OpcodeInfo {
    OpcodeInfo(AnyPlatform, Prefix16(p) + [Part(PlusReg(w, base))], [R(w.ImmSize()), I(w.ImmSize()), NO_DESC], [D, U])
  }

  /** A relative branch, possibly with the 0x0F escape; the 16-bit forms are for IA-32 only. */
  function RelRow(p: bool, escape: bool, op: byte, w: Width): OpcodeInfo {
    OpcodeInfo(if p then IA32 else AnyPlatform,
               Prefix16(p) + (if escape then [Byte(0x0F)] else []) + [Byte(op), Part(RelField(w))],
               [I(w.ImmSize()), NO_DESC, NO_DESC], [U])
  }

  /** Accumulator and immediate, for decoding only. */
  function AccRow(p: bool, op: byte, s: OpndSize, w: Width, accFirst: bool, written: bool, roles: seq<Role>)
    : OpcodeInfo
  {
    OpcodeInfo(Decoder, Prefix16(p) + [Byte(op)] + (if written then [Part(ImmField(w))] else []),
               if accFirst then [Acc(s), I(w.ImmSize()), NO_DESC] else [I(w.ImmSize()), Acc(s), NO_DESC], roles)
  }

  /** A row with a REX.W prefix for the 64-bit build. */
  function Wide(platf: Platform, e: seq<Elem>, a: OpndDesc, b: OpndDesc, roles: seq<Role>): OpcodeInfo {
    OpcodeInfo(platf, [RexW] + e, [a, b, NO_DESC], roles)
  }

  /** The rows k with the rows wide[j] inserted before k[cuts[j]]. */
  function Woven(k: seq<OpcodeInfo>, cuts: seq<nat>, wide: seq<OpcodeInfo>): (r: seq<OpcodeInfo>)
    requires |cuts| == |wide| && (forall i, j :: 0 <= i <= j < |cuts| ==> cuts[i] <= cuts[j] <= |k|)
    ensures |r| == |k| + |wide|
    decreases |wide|
  {
    if wide == [] then k
    else
      var n := |wide| - 1;
      Woven(k[..cuts[n]], cuts[..n], wide[..n]) + [wide[n]] + k[cuts[n]..]
  }

  lemma {:induction false} KeptWoven(k: seq<OpcodeInfo>, cuts: seq<nat>, wide: seq<OpcodeInfo>)
    requires |cuts| == |wide| && (forall i, j :: 0 <= i <= j < |cuts| ==> cuts[i] <= cuts[j] <= |k|)
    requires (forall x :: x in k ==> !Skipped(x)) && (forall x :: x in wide ==> Skipped(x))
    ensures Kept(Woven(k, cuts, wide)) == k
    decreases |wide|
  {
    hide Skipped, Kept;
    if wide == [] {
      KeptAll(k);
    } else {
      var n := |wide| - 1;
      var front := Woven(k[..cuts[n]], cuts[..n], wide[..n]);
      KeptWoven(k[..cuts[n]], cuts[..n], wide[..n]);
      KeptAppend(front + [wide[n]], k[cuts[n]..]);
      KeptAppend(front, [wide[n]]);
      KeptNone(wide[n]);
      KeptAll(k[cuts[n]..]);
    }
  }

  lemma KeptNone(x: OpcodeInfo)
    requires Skipped(x)
    ensures Kept([x]) == []
  {
  }

  // ----- the excerpt: rows of this build, and whole lists -----

  function AluRows(e: bits3): seq<OpcodeInfo> {
    var b: byte := 8 * e;
    var roles := [if e == 7 then U else DU, U];
    [ AccRow(false, b + 4, Size8, W1, true, true, [DU, U]),
      AccRow(true, b + 5, Size16, W2, true, true, [DU, U]),
      AccRow(false, b + 5, Size32, W4, true, true, [DU, U]),
      DigitImmRow(false, 0x80, e, Size8, W1, true, roles),
      DigitImmRow(true, 0x81, e, Size16, W2, true, roles),
      DigitImmRow(false, 0x81, e, Size32, W4, true, roles),
      DigitImmRow(true, 0x83, e, Size16, W1, true, roles),
      DigitImmRow(false, 0x83, e, Size32, W1, true, roles),
      SlashRow(false, b, Size8, true, roles),
      SlashRow(true, b + 1, Size16, true, roles),
      SlashRow(false, b + 1, Size32, true, roles),
      SlashRow(false, b + 2, Size8, false, roles),
      SlashRow(true, b + 3, Size16, false, roles),
      SlashRow(false, b + 3, Size32, false, roles) ]
  }

  function AluWide(e: bits3): seq<OpcodeInfo> {
    var b: byte := 8 * e;
    var roles := [if e == 7 then U else DU, U];
    [ Wide(Decoder64, [Byte(b + 5), Part(ImmField(W4))], Acc(Size64), I(Size32), [DU, U]),
      Wide(EM64T, [Byte(0x81), Part(SlashNum(e)), Part(ImmField(W4))], RM(Size64), I(Size32), roles),
      Wide(EM64T, [Byte(0x83), Part(SlashNum(e)), Part(ImmField(W1))], RM(Size64), I(Size8), roles),
      Wide(EM64T, [Byte(b + 1), Part(SlashR)], RM(Size64), R(Size64), roles),
      Wide(EM64T, [Byte(b + 3), Part(SlashR)], R(Size64), RM(Size64), roles) ]
  }

  type condition = x: int | 0 <= x < 16

  function Jcc(cc: condition): seq<OpcodeInfo> {
    [ RelRow(false, false, 0x70 + cc, W1),
      RelRow(true, true, 0x80 + cc, W2),
      RelRow(false, true, 0x80 + cc, W4) ]
  }

  function JmpRows(): seq<OpcodeInfo> {
    [ RelRow(false, false, 0xEB, W1),
      RelRow(true, false, 0xE9, W2),
      RelRow(false, false, 0xE9, W4),
      DigitRow(IA32, true, 0xFF, 4, Size16, [U]),
      DigitRow(IA32, false, 0xFF, 4, Size32, [U]) ]
  }

  function JmpWide(): seq<OpcodeInfo> {
    [DigitRow(EM64T, false, 0xFF, 4, Size64, [U])]
  }

  function LeaRows(): seq<OpcodeInfo> {
    [LeaRow(Size32), LeaRow(Size64)]
  }

  function LeaWide(): seq<OpcodeInfo> {
    [ Wide(EM64T, [Byte(0x8D), Part(SlashR)], R(Size64), M(Size8), [D, U]),
      Wide(EM64T, [Byte(0x8D), Part(SlashR)], R(Size64), M(Size16), [D, U]),
      Wide(EM64T, [Byte(0x8D), Part(SlashR)], R(Size64), M(Size32), [D, U]),
      Wide(EM64T, [Byte(0x8D), Part(SlashR)], R(Size64), M(Size64), [D, U]) ]
  }

  function MovRows(): seq<OpcodeInfo> {
    [ SlashRow(false, 0x88, Size8, true, [D, U]),
      SlashRow(true, 0x89, Size16, true, [D, U]),
      SlashRow(false, 0x89, Size32, true, [D, U]),
      SlashRow(false, 0x8A, Size8, false, [D, U]),
      SlashRow(true, 0x8B, Size16, false, [D, U]),
      SlashRow(false, 0x8B, Size32, false, [D, U]),
      PlusRow(false, 0xB0, W1),
      PlusRow(true, 0xB8, W2),
      PlusRow(false, 0xB8, W4),
      DigitImmRow(false, 0xC6, 0, Size8, W1, false, [D, U]),
      DigitImmRow(true, 0xC7, 0, Size16, W2, false, [D, U]),
      DigitImmRow(false, 0xC7, 0, Size32, W4, false, [D, U]),
      AccRow(false, 0xA0, Size8, W4, true, false, [D, U]),
      AccRow(true, 0xA1, Size16, W4, true, false, [D, U]),
      AccRow(false, 0xA1, Size32, W4, true, false, [D, U]),
      AccRow(false, 0xA2, Size8, W4, false, false, [D, U]),
      AccRow(true, 0xA3, Size16, W4, false, false, [D, U]),
      AccRow(false, 0xA3, Size32, W4, false, false, [D, U]) ]
  }

  function MovWide(): seq<OpcodeInfo> {
    [ Wide(EM64T, [Byte(0x89), Part(SlashR)], RM(Size64), R(Size64), [D, U]),
      Wide(EM64T, [Byte(0x8B), Part(SlashR)], R(Size64), RM(Size64), [D, U]),
      Wide(EM64T, [Part(PlusReg(W4, 0xB8))], R(Size64), I(Size64), [D, U]),
      Wide(EM64T, [Byte(0xC7), Part(SlashNum(0))], RM(Size64), I(Size32), [D, U]) ]
  }

  function ShiftRows(d: bits3): seq<OpcodeInfo> {
    [ DigitRow(Decoder, false, 0xD0, d, Size8, [DU]),
      ClRow(false, 0xD2, d, Size8),
      DigitImmRow(false, 0xC0, d, Size8, W1, true, [DU, U]),
      DigitRow(Decoder, true, 0xD1, d, Size16, [DU]),
      ClRow(true, 0xD3, d, Size16),
      DigitImmRow(true, 0xC1, d, Size16, W1, true, [DU, U]),
      DigitRow(Decoder, false, 0xD1, d, Size32, [DU]),
      ClRow(false, 0xD3, d, Size32),
      DigitImmRow(false, 0xC1, d, Size32, W1, true, [DU, U]) ]
  }

  function ShiftWide(d: bits3): seq<OpcodeInfo> {
    [ Wide(Decoder64, [Byte(0xD1), Part(SlashNum(d))], RM(Size64), NO_DESC, [DU]),
      Wide(EM64T, [Byte(0xD3), Part(SlashNum(d))], RM(Size64), CL, [DU, U]),
      Wide(EM64T, [Byte(0xC1), Part(SlashNum(d)), Part(ImmField(W1))], RM(Size64), I(Size8), [DU, U]) ]
  }

  const MNEMONICS: nat := 35
  const ADC: nat := 1
  const ADD: nat := 2
  const AND: nat := 3
  const CMP: nat := 4
  const JO: nat := 5
  const JMP: nat := 21
  const LEA: nat := 22
  const MOV: nat := 23
  const OR: nat := 24
  const SAL: nat := 25
  const SAR: nat := 26
  const ROR: nat := 27
  const RCR: nat := 28
  const ROL: nat := 29
  const RCL: nat := 30
  const SHR: nat := 31
  const SBB: nat := 32
  const SUB: nat := 33
  const XOR: nat := 34

  datatype Family = AluFamily | JccFamily | JmpFamily | LeaFamily | MovFamily | ShiftFamily

  /** The arithmetic mnemonics, the sixteen Jcc from JO on, JMP, LEA, MOV, and the shifts and rotations. */
  function FamilyOf(mn: nat): Family
    requires 1 <= mn < MNEMONICS
  {
    if mn < JO || mn == OR || SBB <= mn then AluFamily
    else if mn < JMP then JccFamily
    else if mn == JMP then JmpFamily
    else if mn == LEA then LeaFamily
    else if mn == MOV then MovFamily
    else ShiftFamily
  }

  /** What tells the members of a family apart: the /digit, which also gives an arithmetic opcode, or the condition. */
  function Member(mn: nat): condition
    requires 1 <= mn < MNEMONICS
    ensures FamilyOf(mn) in {AluFamily, ShiftFamily} ==> Member(mn) < 8
  {
    match FamilyOf(mn)
    case AluFamily =>
      if mn == ADC then 2 else if mn == ADD then 0 else if mn == AND then 4 else if mn == CMP then 7
      else if mn == OR then 1 else if mn == SBB then 3 else if mn == SUB then 5 else 6
    case ShiftFamily =>
      if mn == SAL then 4 else if mn == SAR then 7 else if mn == ROR then 1 else if mn == RCR then 3
      else if mn == ROL then 0 else if mn == RCL then 2 else 5
    case JccFamily => mn - JO
    case _ => 0
  }

  /** The rows of a mnemonic that belong to this build; mnemonic 0 is the null mnemonic. */
  function RowsOf(mn: nat): seq<OpcodeInfo>
    requires mn < MNEMONICS
  {
    if mn == 0 then []
    else match FamilyOf(mn)
      case AluFamily => AluRows(Member(mn))
      case JccFamily => Jcc(Member(mn))
      case JmpFamily => JmpRows()
      case LeaFamily => LeaRows()
      case MovFamily => MovRows()
      case ShiftFamily => ShiftRows(Member(mn))
  }

  /** Its rows of the 64-bit build, and where they stand among the others. */
  function WideOf(mn: nat): (seq<nat>, seq<OpcodeInfo>)
    requires mn < MNEMONICS
  {
    if mn == 0 then ([], [])
    else match FamilyOf(mn)
      case AluFamily => ([3, 6, 8, 11, 14], AluWide(Member(mn)))
      case JccFamily => ([], [])
      case JmpFamily => ([5], JmpWide())
      case LeaFamily => ([0, 0, 1, 2], LeaWide())
      case MovFamily => ([3, 6, 9, 12], MovWide())
      case ShiftFamily => ([7, 8, 9], ShiftWide(Member(mn)))
  }

  lemma WideFits(mn: nat)
    requires mn < MNEMONICS
    ensures var (cuts, wide) := WideOf(mn);
            && |cuts| == |wide| && (forall i, j :: 0 <= i <= j < |cuts| ==> cuts[i] <= cuts[j] <= |RowsOf(mn)|)
            && (forall x :: x in wide ==> Skipped(x)) && |RowsOf(mn)| + |wide| < 25
  {
    hide FamilyOf, Member, AluRows, Jcc, JmpRows, LeaRows, MovRows, ShiftRows, AluWide, MovWide, LeaWide, ShiftWide;
    if mn != 0 {
      RowCount(mn);
      AluWideSkipped(if FamilyOf(mn) == AluFamily then Member(mn) else 0);
      ShiftWideSkipped(if FamilyOf(mn) == ShiftFamily then Member(mn) else 0);
      MovWideSkipped();
    }
  }

  lemma AluWideSkipped(e: bits3)
    ensures |AluWide(e)| == 5 && forall x :: x in AluWide(e) ==> Skipped(x)
  {
  }

  lemma ShiftWideSkipped(d: bits3)
    ensures |ShiftWide(d)| == 3 && forall x :: x in ShiftWide(d) ==> Skipped(x)
  {
  }

  /** MOV r64, imm64 is none of the rows the compiler could handle in this build; it never looks at it. */
  lemma WideMovNotCompilable()
    ensures |MovWide()| == 4 && Skipped(MovWide()[2]) && !MasterRow(MovWide()[2])
  {
    assert ImmIndex(MovWide()[2]) == Some(1);
  }

  lemma MovWideSkipped()
    ensures |MovWide()| == 4 && forall x :: x in MovWide() ==> Skipped(x)
    ensures |LeaWide()| == 4 && forall x :: x in LeaWide() ==> Skipped(x)
  {
  }

  /** The whole list of a mnemonic. */
  function MasterOf(mn: nat): seq<OpcodeInfo>
    requires mn < MNEMONICS
  {
    WideFits(mn);
    Woven(RowsOf(mn), WideOf(mn).0, WideOf(mn).1)
  }

  // ----- how a row starts -----

  /** Operand-size prefix, 0x0F escape, the range of the opcode byte, and the /digit. */
  datatype Lead = Lead(p: bool, escape: bool, lo: byte, hi: byte, digit: Option<bits3>)

  function MainOffset(l: Lead): nat { (if l.p then 1 else 0) + (if l.escape then 1 else 0) }

  predicate LeadIs(row: OpcodeDesc, l: Lead) {
    && (l.p ==> PatternAt(row, 0) == Exactly(0x66))
    && (l.escape ==> PatternAt(row, if l.p then 1 else 0) == Exactly(0x0F))
    && PatternAt(row, MainOffset(l)) == (if l.lo == l.hi then Exactly(l.lo) else Within(l.lo))
    && (l.lo == l.hi || l.hi == l.lo + 7)
    && (l.digit.Some? ==> PatternAt(row, MainOffset(l) + 1) == Digit(l.digit.value))
    && !(l.lo <= 0x66 <= l.hi) && !(l.lo <= 0x0F <= l.hi)
  }

  predicate Apart(l: Lead, m: Lead) {
    || l.p != m.p || l.escape != m.escape || l.hi < m.lo || m.hi < l.lo
    || (l.digit.Some? && m.digit.Some? && l.digit != m.digit)
  }

  /** Rows that start apart cannot be confused. */
  lemma ApartDisjoint(a: OpcodeDesc, b: OpcodeDesc, l: Lead, m: Lead)
    requires LeadIs(a, l) && LeadIs(b, m) && Apart(l, m)
    ensures Disjoint(a, b)
  {
    hide PatternAt, MidField;
    var k := MainOffset(l);
    if l.p != m.p {
      assert Clash(PatternAt(a, 0), PatternAt(b, 0));
    } else if l.escape != m.escape {
      var i := if l.p then 1 else 0;
      assert Clash(PatternAt(a, i), PatternAt(b, i));
    } else if l.hi < m.lo || m.hi < l.lo {
      assert Clash(PatternAt(a, k), PatternAt(b, k));
    } else {
      DigitsClash(l.digit.value, m.digit.value);
      assert Clash(PatternAt(a, k + 1), PatternAt(b, k + 1));
    }
  }

  lemma DigitsClash(d: bits3, e: bits3)
    requires d != e
    ensures Clash(Digit(d), Digit(e))
  {
    DigitByte(d);
  }

  // ----- each kind of row is suitable -----

  /** Shifts by CL: the row has an operand that no element of it encodes. */
  predicate Implicit(row: OpcodeDesc) {
    |row.roles| == 2 && row.opnds[1] == CL
  }

  /**
   * A master row that compiles to a searchable row with a given start; a row for encoding is hashable and
   * describes the operands it encodes, which are all of them unless it has an implicit operand.
   */
  ghost predicate Suits(info: OpcodeInfo, l: Lead) {
    && MasterRow(info) && !Skipped(info)
    && var row := CompileRow(info);
       && InRange(row) && Searchable(row) && LeadIs(row, l)
       && (row.decoderOnly || (Hashable(row) && Described(row) && (Implicit(row) || Explicit(row))))
  }

  predicate GpSize(s: OpndSize) { s == Size8 || s == Size16 || s == Size32 }

  predicate PlainOp(op: byte) { !PrefixByte(op) && op != 0x66 && op != 0x0F }

  function Raw16(p: bool, ops: seq<byte>): seq<byte> { if p then [0x66] + ops else ops }

  lemma DescsHashable(s: OpndSize)
    requires GpSize(s)
    ensures HashableDesc(R(s)) && HashableDesc(RM(s)) && HashableDesc(I(s))
    ensures Masked(RM(s)) && !Masked(R(s)) && !Masked(I(s))
    ensures RegDesc(R(s)) && RmDesc(RM(s)) && HashableDesc(CL) && !Masked(CL)
  {
    assert RM(s).kinds == {GPReg, Mem} && RM(s).kinds - {Mem} == {GPReg};
    assert GPReg in {GPReg, XMMReg, FPReg, SReg};
  }

  lemma SlashCompiles(p: bool, op: byte, s: OpndSize, rmFirst: bool, roles: seq<Role>)
    requires |roles| == 2
    ensures var info := SlashRow(p, op, s, rmFirst, roles);
            MasterRow(info) && CompileRow(info) == RawDesc(Raw16(p, [op]), SlashR, NoAux, info.opnds, 0, roles, false)
  {
    hide RawCount, RawBytes;
    RawOf(SlashRow(p, op, s, rmFirst, roles).opcode, Raw16(p, [op]), [Part(SlashR)]);
  }

  lemma SlashSuits(p: bool, op: byte, s: OpndSize, rmFirst: bool, roles: seq<Role>)
    requires GpSize(s) && PlainOp(op) && |roles| == 2
    ensures Suits(SlashRow(p, op, s, rmFirst, roles), Lead(p, false, op, op, None))
  {
    hide CompileRow, MasterRow, InRange, HashableDesc, RegDesc, RmDesc, Masked;
    SlashCompiles(p, op, s, rmFirst, roles);
    DescsHashable(s);
    HashableInRange(CompileRow(SlashRow(p, op, s, rmFirst, roles)));
  }

  lemma DigitImmCompiles(p: bool, op: byte, d: bits3, s: OpndSize, w: Width, written: bool, roles: seq<Role>)
    requires |roles| == 2
    ensures var info := DigitImmRow(p, op, d, s, w, written, roles);
            && MasterRow(info)
            && CompileRow(info) == RawDesc(Raw16(p, [op]), SlashNum(d), ImmField(w), info.opnds, 0, roles, false)
  {
    hide RawCount, RawBytes;
    RawOf(DigitImmRow(p, op, d, s, w, written, roles).opcode, Raw16(p, [op]),
          [Part(SlashNum(d))] + (if written then [Part(ImmField(w))] else []));
  }

  lemma DigitImmSuits(p: bool, op: byte, d: bits3, s: OpndSize, w: Width, written: bool, roles: seq<Role>)
    requires GpSize(s) && PlainOp(op) && |roles| == 2
    ensures Suits(DigitImmRow(p, op, d, s, w, written, roles), Lead(p, false, op, op, Some(d)))
  {
    hide CompileRow, MasterRow, InRange, HashableDesc, RegDesc, RmDesc, Masked;
    DigitImmCompiles(p, op, d, s, w, written, roles);
    DescsHashable(s);
    DescsHashable(w.ImmSize());
    HashableInRange(CompileRow(DigitImmRow(p, op, d, s, w, written, roles)));
  }

  lemma DigitCompiles(platf: Platform, p: bool, op: byte, d: bits3, s: OpndSize, roles: seq<Role>)
    requires |roles| == 1
    ensures var info := DigitRow(platf, p, op, d, s, roles);
            && MasterRow(info)
            && CompileRow(info) == RawDesc(Raw16(p, [op]), SlashNum(d), NoAux, info.opnds, 0, roles,
                                           platf in {Decoder, Decoder32, Decoder64})
  {
    hide RawCount, RawBytes;
    RawOf(DigitRow(platf, p, op, d, s, roles).opcode, Raw16(p, [op]), [Part(SlashNum(d))]);
  }

  lemma DigitSuits(platf: Platform, p: bool, op: byte, d: bits3, s: OpndSize, roles: seq<Role>)
    requires GpSize(s) && PlainOp(op) && |roles| == 1 && (platf == IA32 || platf == Decoder)
    ensures Suits(DigitRow(platf, p, op, d, s, roles), Lead(p, false, op, op, Some(d)))
  {
    hide CompileRow, MasterRow, InRange, HashableDesc, RegDesc, RmDesc, Masked;
    DigitCompiles(platf, p, op, d, s, roles);
    DescsHashable(s);
    HashableInRange(CompileRow(DigitRow(platf, p, op, d, s, roles)));
  }

  lemma ClCompiles(p: bool, op: byte, d: bits3, s: OpndSize)
    ensures var info := ClRow(p, op, d, s);
            && MasterRow(info)
            && CompileRow(info) == RawDesc(Raw16(p, [op]), SlashNum(d), NoAux, info.opnds, 0, [DU, U], false)
  {
    hide RawCount, RawBytes;
    RawOf(ClRow(p, op, d, s).opcode, Raw16(p, [op]), [Part(SlashNum(d))]);
  }

  lemma ClSuits(p: bool, op: byte, d: bits3, s: OpndSize)
    requires GpSize(s) && PlainOp(op)
    ensures Suits(ClRow(p, op, d, s), Lead(p, false, op, op, Some(d)))
  {
    hide CompileRow, MasterRow, InRange, HashableDesc, RegDesc, RmDesc, Masked;
    ClCompiles(p, op, d, s);
    DescsHashable(s);
    HashableInRange(CompileRow(ClRow(p, op, d, s)));
  }

  lemma LeaCompiles(s: OpndSize)
    ensures var info := LeaRow(s);
            MasterRow(info) && CompileRow(info) == RawDesc([0x8D], SlashR, NoAux, info.opnds, 0, [D, U], false)
  {
    hide RawCount, RawBytes;
    RawOf(LeaRow(s).opcode, [0x8D], [Part(SlashR)]);
  }

  lemma LeaSuits(s: OpndSize)
    requires s == Size32 || s == Size64
    ensures Suits(LeaRow(s), Lead(false, false, 0x8D, 0x8D, None))
  {
    hide CompileRow, MasterRow, InRange, HashableDesc, RegDesc, RmDesc, Masked;
    LeaCompiles(s);
    DescsHashable(Size32);
    MemHashable(s);
    HashableInRange(CompileRow(LeaRow(s)));
  }

  lemma MemHashable(s: OpndSize)
    requires s == Size32 || s == Size64
    ensures HashableDesc(M(s)) && !Masked(M(s)) && RmDesc(M(s))
  {
  }

  lemma PlusCompiles(p: bool, base: byte, w: Width)
    ensures var info := PlusRow(p, base, w);
            && MasterRow(info)
            && CompileRow(info) == RawDesc(Raw16(p, []), PlusReg(w, base), ImmField(w), info.opnds, 0, [D, U], false)
  {
    hide RawCount, RawBytes;
    RawOf(PlusRow(p, base, w).opcode, Raw16(p, []), [Part(PlusReg(w, base))]);
  }

  lemma PlusSuits(p: bool, base: byte, w: Width)
    requires base == 0xB0 || base == 0xB8
    ensures Suits(PlusRow(p, base, w), Lead(p, false, base, base + 7, None))
  {
    hide CompileRow, MasterRow, InRange, HashableDesc, RegDesc, RmDesc, Masked;
    PlusCompiles(p, base, w);
    DescsHashable(w.ImmSize());
    HashableInRange(CompileRow(PlusRow(p, base, w)));
  }

  lemma RelCompiles(p: bool, escape: bool, op: byte, w: Width)
    ensures var info := RelRow(p, escape, op, w);
            && MasterRow(info)
            && CompileRow(info) == RawDesc(Raw16(p, if escape then [0x0F, op] else [op]), RelField(w), NoAux,
                                           info.opnds, 0, [U], false)
  {
    hide RawCount, RawBytes;
    RawOf(RelRow(p, escape, op, w).opcode, Raw16(p, if escape then [0x0F, op] else [op]), [Part(RelField(w))]);
  }

  lemma RelSuits(p: bool, escape: bool, op: byte, w: Width)
    requires PlainOp(op)
    ensures Suits(RelRow(p, escape, op, w), Lead(p, escape, op, op, None))
  {
    hide CompileRow, MasterRow, InRange, HashableDesc, RegDesc, RmDesc, Masked;
    RelCompiles(p, escape, op, w);
    DescsHashable(w.ImmSize());
    HashableInRange(CompileRow(RelRow(p, escape, op, w)));
  }

  lemma AccSuits(p: bool, op: byte, s: OpndSize, w: Width, accFirst: bool, written: bool, roles: seq<Role>)
    requires GpSize(s) && PlainOp(op) && |roles| == 2
    ensures Suits(AccRow(p, op, s, w, accFirst, written, roles), Lead(p, false, op, op, None))
  {
    var info := AccRow(p, op, s, w, accFirst, written, roles);
    RawOf(info.opcode, Raw16(p, [op]), if written then [Part(ImmField(w))] else []);
  }

  // ----- every row of the excerpt -----

  function Op(p: bool, b: byte): Lead { Lead(p, false, b, b, None) }
  function Grp(p: bool, b: byte, d: bits3): Lead { Lead(p, false, b, b, Some(d)) }

  function AluLead(e: bits3, i: nat): Lead
    requires i < 14
  {
    match i
    case 0 => Op(false, 8 * e + 4)
    case 1 => Op(true, 8 * e + 5)
    case 2 => Op(false, 8 * e + 5)
    case 3 => Grp(false, 0x80, e)
    case 4 => Grp(true, 0x81, e)
    case 5 => Grp(false, 0x81, e)
    case 6 => Grp(true, 0x83, e)
    case 7 => Grp(false, 0x83, e)
    case 8 => Op(false, 8 * e)
    case 9 => Op(true, 8 * e + 1)
    case 10 => Op(false, 8 * e + 1)
    case 11 => Op(false, 8 * e + 2)
    case 12 => Op(true, 8 * e + 3)
    case _ => Op(false, 8 * e + 3)
  }

  function JccLead(cc: condition, i: nat): Lead
    requires i < 3
  {
    if i == 0 then Op(false, 0x70 + cc) else Lead(i == 1, true, 0x80 + cc, 0x80 + cc, None)
  }

  function JmpLead(i: nat): Lead
    requires i < 5
  {
    match i
    case 0 => Op(false, 0xEB)
    case 1 => Op(true, 0xE9)
    case 2 => Op(false, 0xE9)
    case 3 => Grp(true, 0xFF, 4)
    case _ => Grp(false, 0xFF, 4)
  }

  function MovLead(i: nat): Lead
    requires i < 18
  {
    match i
    case 0 => Op(false, 0x88)
    case 1 => Op(true, 0x89)
    case 2 => Op(false, 0x89)
    case 3 => Op(false, 0x8A)
    case 4 => Op(true, 0x8B)
    case 5 => Op(false, 0x8B)
    case 6 => Lead(false, false, 0xB0, 0xB7, None)
    case 7 => Lead(true, false, 0xB8, 0xBF, None)
    case 8 => Lead(false, false, 0xB8, 0xBF, None)
    case 9 => Grp(false, 0xC6, 0)
    case 10 => Grp(true, 0xC7, 0)
    case 11 => Grp(false, 0xC7, 0)
    case 12 => Op(false, 0xA0)
    case 13 => Op(true, 0xA1)
    case 14 => Op(false, 0xA1)
    case 15 => Op(false, 0xA2)
    case 16 => Op(true, 0xA3)
    case _ => Op(false, 0xA3)
  }

  function ShiftLead(d: bits3, i: nat): Lead
    requires i < 9
  {
    match i
    case 0 => Grp(false, 0xD0, d)
    case 1 => Grp(false, 0xD2, d)
    case 2 => Grp(false, 0xC0, d)
    case 3 => Grp(true, 0xD1, d)
    case 4 => Grp(true, 0xD3, d)
    case 5 => Grp(true, 0xC1, d)
    case 6 => Grp(false, 0xD1, d)
    case 7 => Grp(false, 0xD3, d)
    case _ => Grp(false, 0xC1, d)
  }

  function LeadAt(mn: nat, i: nat): Lead
    requires 1 <= mn < MNEMONICS && i < |RowsOf(mn)|
  {
    match FamilyOf(mn)
    case AluFamily => AluLead(Member(mn), i)
    case JccFamily => JccLead(Member(mn), i)
    case JmpFamily => JmpLead(i)
    case LeaFamily => Op(false, 0x8D)
    case MovFamily => MovLead(i)
    case ShiftFamily => ShiftLead(Member(mn), i)
  }

  lemma AluSuits(e: bits3, i: nat)
    requires i < 14
    ensures Suits(AluRows(e)[i], AluLead(e, i))
  {
    hide Suits, AccRow, DigitImmRow, SlashRow;
    var roles := [if e == 7 then U else DU, U];
    match i
    case 0 => AccSuits(false, 8 * e + 4, Size8, W1, true, true, [DU, U]);
    case 1 => AccSuits(true, 8 * e + 5, Size16, W2, true, true, [DU, U]);
    case 2 => AccSuits(false, 8 * e + 5, Size32, W4, true, true, [DU, U]);
    case 3 => DigitImmSuits(false, 0x80, e, Size8, W1, true, roles);
    case 4 => DigitImmSuits(true, 0x81, e, Size16, W2, true, roles);
    case 5 => DigitImmSuits(false, 0x81, e, Size32, W4, true, roles);
    case 6 => DigitImmSuits(true, 0x83, e, Size16, W1, true, roles);
    case 7 => DigitImmSuits(false, 0x83, e, Size32, W1, true, roles);
    case 8 => SlashSuits(false, 8 * e, Size8, true, roles);
    case 9 => SlashSuits(true, 8 * e + 1, Size16, true, roles);
    case 10 => SlashSuits(false, 8 * e + 1, Size32, true, roles);
    case 11 => SlashSuits(false, 8 * e + 2, Size8, false, roles);
    case 12 => SlashSuits(true, 8 * e + 3, Size16, false, roles);
    case _ => SlashSuits(false, 8 * e + 3, Size32, false, roles);
  }

  lemma JumpSuits(cc: condition, i: nat)
    ensures i < 3 ==> Suits(Jcc(cc)[i], JccLead(cc, i))
    ensures i < 5 ==> Suits(JmpRows()[i], JmpLead(i))
  {
    hide Suits, RelRow, DigitRow;
    RelSuits(false, false, 0x70 + cc, W1);
    RelSuits(true, true, 0x80 + cc, W2);
    RelSuits(false, true, 0x80 + cc, W4);
    RelSuits(false, false, 0xEB, W1);
    RelSuits(true, false, 0xE9, W2);
    RelSuits(false, false, 0xE9, W4);
    DigitSuits(IA32, true, 0xFF, 4, Size16, [U]);
    DigitSuits(IA32, false, 0xFF, 4, Size32, [U]);
  }

  lemma MovSuits(i: nat)
    requires i < 18
    ensures Suits(MovRows()[i], MovLead(i))
  {
    hide Suits, AccRow, DigitImmRow, SlashRow, PlusRow;
    match i
    case 0 => SlashSuits(false, 0x88, Size8, true, [D, U]);
    case 1 => SlashSuits(true, 0x89, Size16, true, [D, U]);
    case 2 => SlashSuits(false, 0x89, Size32, true, [D, U]);
    case 3 => SlashSuits(false, 0x8A, Size8, false, [D, U]);
    case 4 => SlashSuits(true, 0x8B, Size16, false, [D, U]);
    case 5 => SlashSuits(false, 0x8B, Size32, false, [D, U]);
    case 6 => PlusSuits(false, 0xB0, W1);
    case 7 => PlusSuits(true, 0xB8, W2);
    case 8 => PlusSuits(false, 0xB8, W4);
    case 9 => DigitImmSuits(false, 0xC6, 0, Size8, W1, false, [D, U]);
    case 10 => DigitImmSuits(true, 0xC7, 0, Size16, W2, false, [D, U]);
    case 11 => DigitImmSuits(false, 0xC7, 0, Size32, W4, false, [D, U]);
    case 12 => AccSuits(false, 0xA0, Size8, W4, true, false, [D, U]);
    case 13 => AccSuits(true, 0xA1, Size16, W4, true, false, [D, U]);
    case 14 => AccSuits(false, 0xA1, Size32, W4, true, false, [D, U]);
    case 15 => AccSuits(false, 0xA2, Size8, W4, false, false, [D, U]);
    case 16 => AccSuits(true, 0xA3, Size16, W4, false, false, [D, U]);
    case _ => AccSuits(false, 0xA3, Size32, W4, false, false, [D, U]);
  }

  lemma ShiftSuits(d: bits3, i: nat)
    requires i < 9
    ensures Suits(ShiftRows(d)[i], ShiftLead(d, i))
  {
    hide Suits, DigitRow, ClRow, DigitImmRow;
    match i
    case 0 => DigitSuits(Decoder, false, 0xD0, d, Size8, [DU]);
    case 1 => ClSuits(false, 0xD2, d, Size8);
    case 2 => DigitImmSuits(false, 0xC0, d, Size8, W1, true, [DU, U]);
    case 3 => DigitSuits(Decoder, true, 0xD1, d, Size16, [DU]);
    case 4 => ClSuits(true, 0xD3, d, Size16);
    case 5 => DigitImmSuits(true, 0xC1, d, Size16, W1, true, [DU, U]);
    case 6 => DigitSuits(Decoder, false, 0xD1, d, Size32, [DU]);
    case 7 => ClSuits(false, 0xD3, d, Size32);
    case _ => DigitImmSuits(false, 0xC1, d, Size32, W1, true, [DU, U]);
  }

  lemma RowCount(mn: nat)
    requires 1 <= mn < MNEMONICS
    ensures |RowsOf(mn)| ==
            match FamilyOf(mn)
            case AluFamily => 14
            case JccFamily => 3
            case JmpFamily => 5
            case LeaFamily => 2
            case MovFamily => 18
            case ShiftFamily => 9
  {
  }

  lemma AllSuit(mn: nat, i: nat)
    requires 1 <= mn < MNEMONICS && i < |RowsOf(mn)|
    ensures Suits(RowsOf(mn)[i], LeadAt(mn, i))
  {
    hide Suits, AluLead, JccLead, JmpLead, MovLead, ShiftLead, FamilyOf, Member, LeaRow;
    RowCount(mn);
    match FamilyOf(mn)
    case AluFamily => AluSuits(Member(mn), i);
    case JccFamily => JumpSuits(Member(mn), i);
    case JmpFamily => JumpSuits(0, i);
    case LeaFamily => LeaSuits(Size32); LeaSuits(Size64);
    case MovFamily => MovSuits(i);
    case ShiftFamily => ShiftSuits(Member(mn), i);
  }

  /** The family a start belongs to. */
  function LeadFamily(l: Lead): Family {
    if l.escape || 0x70 <= l.lo < 0x80 then JccFamily
    else if l.lo < 0x40 || 0x80 <= l.lo < 0x84 then AluFamily
    else if l.lo == 0x8D then LeaFamily
    else if l.lo in {0xC0, 0xC1, 0xD0, 0xD1, 0xD2, 0xD3} then ShiftFamily
    else if 0x84 <= l.lo < 0xC8 then MovFamily
    else JmpFamily
  }

  predicate RangedLead(l: Lead) {
    l.lo == l.hi || (!l.escape && (l.lo == 0xB0 || l.lo == 0xB8) && l.hi == l.lo + 7)
  }

  lemma FamiliesApart(l: Lead, m: Lead)
    requires RangedLead(l) && RangedLead(m) && LeadFamily(l) != LeadFamily(m)
    ensures Apart(l, m)
  {
  }

  lemma LeadInFamily(mn: nat, i: nat)
    requires 1 <= mn < MNEMONICS && i < |RowsOf(mn)|
    ensures LeadFamily(LeadAt(mn, i)) == FamilyOf(mn) && RangedLead(LeadAt(mn, i))
  {
    hide FamilyOf, Member, AluRows, JmpRows, LeaRows, MovRows, ShiftRows, Jcc;
    RowCount(mn);
    match FamilyOf(mn)
    case AluFamily => AluRange(Member(mn), i);
    case _ =>
  }

  lemma AluApart(e: bits3, i: nat, f: bits3, j: nat)
    requires i < 14 && j < 14 && (e != f || i != j)
    ensures Apart(AluLead(e, i), AluLead(f, j))
  {
    AluRange(e, i);
    AluRange(f, j);
    if e != f {
      hide AluLead;
    }
  }

  lemma AluRange(e: bits3, i: nat)
    requires i < 14
    ensures var l := AluLead(e, i);
            && l.lo == l.hi && !l.escape
            && if l.digit.None? then 8 * e <= l.lo <= 8 * e + 5 else l.digit.value == e && 0x80 <= l.lo <= 0x83
  {
  }

  lemma MovApart(i: nat, j: nat)
    requires i < 18 && j < 18 && i != j
    ensures Apart(MovLead(i), MovLead(j))
  {
  }

  lemma ShiftApart(d: bits3, i: nat, e: bits3, j: nat)
    requires i < 9 && j < 9 && (d != e || i != j)
    ensures Apart(ShiftLead(d, i), ShiftLead(e, j))
  {
  }

  lemma JumpsApart(cc: condition, i: nat, dd: condition, j: nat)
    ensures i < 3 && j < 3 && (cc != dd || i != j) ==> Apart(JccLead(cc, i), JccLead(dd, j))
    ensures i < 5 && j < 5 && i != j ==> Apart(JmpLead(i), JmpLead(j))
  {
  }

  lemma DistinctMembers(mn: nat, m: nat)
    requires 1 <= mn < MNEMONICS && 1 <= m < MNEMONICS && mn != m && FamilyOf(mn) == FamilyOf(m)
    ensures Member(mn) != Member(m)
  {
  }

  /** Whichever two rows of the excerpt are taken, they start apart, except for the two of LEA. */
  lemma AllApart(mn: nat, i: nat, m: nat, j: nat)
    requires 1 <= mn < MNEMONICS && i < |RowsOf(mn)| && 1 <= m < MNEMONICS && j < |RowsOf(m)|
    requires (mn != m || i != j) && !(mn == LEA && m == LEA)
    ensures Apart(LeadAt(m, j), LeadAt(mn, i))
  {
    hide AluLead, JccLead, JmpLead, MovLead, ShiftLead, Apart, AluRows, Jcc, JmpRows, MovRows, ShiftRows, Member,
      LeadFamily, RangedLead;
    RowCount(mn);
    RowCount(m);
    LeadInFamily(mn, i);
    LeadInFamily(m, j);
    if FamilyOf(mn) != FamilyOf(m) {
      FamiliesApart(LeadAt(m, j), LeadAt(mn, i));
    } else {
      if mn != m {
        DistinctMembers(mn, m);
      }
      match FamilyOf(mn)
      case AluFamily => AluApart(Member(m), j, Member(mn), i);
      case JccFamily => JumpsApart(Member(m), j, Member(mn), i);
      case JmpFamily => JumpsApart(0, j, 0, i);
      case MovFamily => MovApart(j, i);
      case ShiftFamily => ShiftApart(Member(m), j, Member(mn), i);
    }
  }

  // ----- the tables of the excerpt -----

  /** The compiler keeps exactly the rows of this build. */
  lemma KeptRows(mn: nat)
    requires mn < MNEMONICS
    ensures Kept(MasterOf(mn)) == RowsOf(mn) && |MasterOf(mn)| < 25
  {
    hide Kept, RowsOf, WideOf, Suits, LeadAt, Woven;
    forall x | x in RowsOf(mn) ensures !Skipped(x) {
      var i :| 0 <= i < |RowsOf(mn)| && RowsOf(mn)[i] == x;
      RowKept(mn, i);
    }
    WideFits(mn);
    KeptWoven(RowsOf(mn), WideOf(mn).0, WideOf(mn).1);
  }

  lemma RowKept(mn: nat, i: nat)
    requires mn < MNEMONICS && i < |RowsOf(mn)|
    ensures 1 <= mn && !Skipped(RowsOf(mn)[i]) && Suits(RowsOf(mn)[i], LeadAt(mn, i))
  {
    hide LeadAt, FamilyOf, Member, MasterRow, CompileRow, InRange, Searchable, LeadIs, Hashable, Described;
    if mn != 0 {
      AllSuit(mn, i);
    }
  }

  lemma ExcerptBuildable(mn: nat)
    requires mn < MNEMONICS
    ensures Buildable(MasterOf(mn)) && Compilable(MasterOf(mn))
  {
    hide LeadAt, LeadIs, InRange, Searchable, Described, Hashable, MasterRow, CompileRow, RowsOf, MasterOf, Skipped;
    KeptRows(mn);
    forall x | x in MasterOf(mn) ensures Skipped(x) || (MasterRow(x) && InRange(CompileRow(x))) {
      if !Skipped(x) {
        assert x in Kept(MasterOf(mn));
        var i :| 0 <= i < |RowsOf(mn)| && RowsOf(mn)[i] == x;
        RowKept(mn, i);
      }
    }
  }

  ghost predicate ExcerptTables(t: Tables) {
    && Built(t) && |t.opcodes| == MNEMONICS
    && forall mn :: 0 <= mn < MNEMONICS ==> Compilable(MasterOf(mn)) && t.opcodes[mn] == Compile(MasterOf(mn))
  }

  lemma Size(t: Tables)
    requires ExcerptTables(t)
    ensures |t.opcodes| == MNEMONICS && Built(t) && t.opcodes[0] == []
  {
    hide Built, Compile;
    assert MasterOf(0) == [];
    assert Compile([]) == [] by { EmptyCompiles(); }
  }

  lemma EmptyCompiles()
    ensures Compile([]) == []
  {
  }

  /** The compiled rows of a mnemonic. */
  lemma RowOf(t: Tables, mn: nat)
    requires ExcerptTables(t) && 1 <= mn < MNEMONICS
    ensures |t.opcodes[mn]| == |RowsOf(mn)|
    ensures forall i :: 0 <= i < |RowsOf(mn)| ==>
              Suits(RowsOf(mn)[i], LeadAt(mn, i)) && t.opcodes[mn][i] == CompileRow(RowsOf(mn)[i])
  {
    hide MasterOf, RowsOf, LeadAt, CompileRow, MasterRow, Built, Suits, Compile, Kept;
    KeptRows(mn);
    CompileKept(MasterOf(mn));
    forall i | 0 <= i < |RowsOf(mn)| ensures Suits(RowsOf(mn)[i], LeadAt(mn, i)) {
      RowKept(mn, i);
    }
  }

  lemma RowDistinguished(t: Tables, mn: nat, i: nat)
    requires ExcerptTables(t) && 1 <= mn < MNEMONICS && i < |t.opcodes[mn]| && !(mn == LEA && i == 1)
    ensures Distinguished(t.opcodes, mn, i)
  {
    hide Disjoint, ExcerptTables, RowsOf, LeadAt, CompileRow, LeadIs, Apart, InRange, Searchable,
      Described, Hashable, MasterRow;
    RowOf(t, mn);
    Size(t);
    if mn == LEA {
      LeaCount();
    }
    forall m, j | 1 <= m < |t.opcodes| && 0 <= j < |t.opcodes[m]| && Before(m, j, mn, i)
      ensures Disjoint(t.opcodes[m][j], t.opcodes[mn][i])
    {
      RowOf(t, m);
      AllApart(mn, i, m, j);
      ApartDisjoint(t.opcodes[m][j], t.opcodes[mn][i], LeadAt(m, j), LeadAt(mn, i));
    }
  }

  lemma LeaCount()
    ensures |RowsOf(LEA)| == 2
  {
  }

  /**
   * Rows the encoder's instructions are not found by: rows for decoding only, and LEA r32, m64, whose bytes are
   * those of the row before it.
   */
  predicate Exempt(t: Tables, mn: nat, i: nat)
    requires mn < |t.opcodes| && i < |t.opcodes[mn]|
  {
    t.opcodes[mn][i].decoderOnly || (mn == LEA && i == 1)
  }

  /** The hypotheses of the round trip hold for the excerpt: every other row is covered. */
  lemma ExcerptCovered(t: Tables)
    requires ExcerptTables(t)
    ensures WellFormed(t) && |t.opcodes| == MNEMONICS
    ensures forall mn, i :: 1 <= mn < MNEMONICS && 0 <= i < |t.opcodes[mn]| ==> Exempt(t, mn, i) || Covered(t, mn, i)
  {
    hide ExcerptTables, RowsOf, LeadAt, LeadIs, Built, InRange, Searchable, Described, Hashable, MasterRow,
      Distinguished;
    Size(t);
    forall mn, i | 1 <= mn < MNEMONICS && 0 <= i < |t.opcodes[mn]|
      ensures Searchable(t.opcodes[mn][i]) && (t.opcodes[mn][i].decoderOnly || Hashable(t.opcodes[mn][i]))
      ensures Exempt(t, mn, i) || Covered(t, mn, i)
    {
      RowOf(t, mn);
      if !(mn == LEA && i == 1) {
        RowDistinguished(t, mn, i);
      }
    }
  }

  /** The second row of LEA is never found by the decoder. */
  lemma LeaShadowed(t: Tables)
    requires ExcerptTables(t)
    ensures |t.opcodes| == MNEMONICS && |t.opcodes[LEA]| == 2 && !Distinguished(t.opcodes, LEA, 1)
    ensures forall code: Code, at: nat ::
              RowAccepts(t.opcodes[LEA][1], code, at) <==> RowAccepts(t.opcodes[LEA][0], code, at)
  {
    hide ExcerptTables, LeadAt, Suits, MasterRow, CompileRow;
    Size(t);
    RowOf(t, LEA);
    LeaCompiles(Size32);
    LeaCompiles(Size64);
    var a, b := t.opcodes[LEA][0], t.opcodes[LEA][1];
    assert a == CompileRow(LeaRow(Size32)) && b == CompileRow(LeaRow(Size64));
    assert forall i :: 0 <= i < 5 ==> PatternAt(a, i) == PatternAt(b, i) && !Clash(PatternAt(a, i), PatternAt(b, i));
    assert !Disjoint(a, b) && Before(LEA, 0, LEA, 1);
  }

  /** The tables the program builds from the excerpt at start-up. */
  method BuildExcerpt() returns (t: Tables)
    ensures ExcerptTables(t) && WellFormed(t)
  {
    hide MasterOf, Built, Compile, WellFormed, MasterRow, CompileRow, InRange, Covered;
    var master := seq(MNEMONICS, mn requires 0 <= mn < MNEMONICS => MasterOf(mn));
    forall mn | 0 <= mn < MNEMONICS ensures Buildable(master[mn]) {
      ExcerptBuildable(mn);
    }
    t := BuildTable(master);
    forall mn | 0 <= mn < MNEMONICS ensures Compilable(MasterOf(mn)) && t.opcodes[mn] == Compile(MasterOf(mn)) {
      assert master[mn] == MasterOf(mn);
    }
    ExcerptCovered(t);
  }
}
