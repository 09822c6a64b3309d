/**
 * The instructions of the excerpt by the machine's own numbering: a reference assembler that knows opcodes,
 * /digits and condition codes but no tables, and the proof that encoding through the compiled tables agrees
 * with it on every operand list.
 */
module MachineCode {
  import opened Basics
  import opened X86
  import opened Rows
  import opened RowNotation
  import opened ModRM
  import opened OperandHash
  import opened TableBuilder
  import opened Encoder
  import opened Decoder
  import opened RoundTrip
  import opened Excerpt
  import opened Instances
  import opened Outcomes

  // ----- the reference -----

  /** Instructions by the number the machine gives them: arithmetic and shift /digits, condition codes. */
  datatype Instruction = Alu(digit: bits3) | Shift(digit: bits3) | Jump(cc: condition) | Jmp | Lea | Mov

  const ARITHMETIC: seq<nat> := [ADD, OR, ADC, SBB, AND, SUB, XOR, CMP]

  /** The table has no mnemonic for the shift with /digit 6. */
  const SHIFTS: seq<nat> := [ROL, ROR, RCL, RCR, SAL, SHR, 0, SAR]

  /** The mnemonic of an instruction, or 0; the conditional jumps follow one another from JO on. */
  function Mnemonic(i: Instruction): nat {
    match i
    case Alu(e) => ARITHMETIC[e]
    case Shift(d) => SHIFTS[d]
    case Jump(cc) => JO + cc
    case Jmp => JMP
    case Lea => LEA
    case Mov => MOV
  }

  /** An operand-size prefix for 16-bit operands. */
  function Prefixed(s: OpndSize, op: seq<byte>): seq<byte> { if s == Size16 then [0x66] + op else op }

  /** The low bit of an opcode is clear for 8-bit operands. */
  function WideBit(s: OpndSize): bits3 { if s == Size8 then 0 else 1 }

  function FieldWidth(s: OpndSize): Width { if s == Size8 then W1 else if s == Size16 then W2 else W4 }

  predicate Gpr(op: Operand, s: OpndSize) { op.Kind() == GPReg && op.Size() == s }
  predicate Memory(op: Operand, s: OpndSize) { op.Kind() == Mem && op.Size() == s }
  predicate Rm(op: Operand, s: OpndSize) { Gpr(op, s) || Memory(op, s) }
  predicate Number(op: Operand, s: OpndSize) { op.Kind() == Imm && op.Size() == s }

  function RegIndex(op: Operand): bits3 { HwIndex(op.RegOf()) }

  function AluCode(e: bits3, a: Operand, b: Operand, stale: bits2): Option<seq<byte>> {
    var s := a.Size();
    if !GpSize(s) then None
    else if Rm(a, s) && Gpr(b, s) then Some(Prefixed(s, [8 * e + WideBit(s)]) + RmBytes(a, RegIndex(b), stale))
    else if Gpr(a, s) && Memory(b, s) then
      Some(Prefixed(s, [8 * e + 2 + WideBit(s)]) + RmBytes(b, RegIndex(a), stale))
    else if Rm(a, s) && Number(b, s) then
      Some(Prefixed(s, [0x80 + WideBit(s)]) + RmBytes(a, e, stale) + LittleEndian(FieldWidth(s), b.ImmOf()))
    else if Rm(a, s) && Number(b, Size8) then
      Some(Prefixed(s, [0x83]) + RmBytes(a, e, stale) + LittleEndian(W1, b.ImmOf()))
    else None
  }

  function MovCode(a: Operand, b: Operand, stale: bits2): Option<seq<byte>> {
    var s := a.Size();
    if !GpSize(s) then None
    else if Rm(a, s) && Gpr(b, s) then Some(Prefixed(s, [0x88 + WideBit(s)]) + RmBytes(a, RegIndex(b), stale))
    else if Gpr(a, s) && Memory(b, s) then
      Some(Prefixed(s, [0x8A + WideBit(s)]) + RmBytes(b, RegIndex(a), stale))
    else if Gpr(a, s) && Number(b, s) then
      Some(Prefixed(s, [0xB0 + 8 * WideBit(s) + RegIndex(a)]) + LittleEndian(FieldWidth(s), b.ImmOf()))
    else if Memory(a, s) && Number(b, s) then
      Some(Prefixed(s, [0xC6 + WideBit(s)]) + RmBytes(a, 0, stale) + LittleEndian(FieldWidth(s), b.ImmOf()))
    else None
  }

  /** A shift by an immediate, or by CL, for which any 8-bit register stands. */
  function ShiftCode(d: bits3, a: Operand, b: Operand, stale: bits2): Option<seq<byte>> {
    var s := a.Size();
    if !GpSize(s) || !Rm(a, s) then None
    else if Number(b, Size8) then
      Some(Prefixed(s, [0xC0 + WideBit(s)]) + RmBytes(a, d, stale) + LittleEndian(W1, b.ImmOf()))
    else if Gpr(b, Size8) then Some(Prefixed(s, [0xD2 + WideBit(s)]) + RmBytes(a, d, stale))
    else None
  }

  function LeaCode(a: Operand, b: Operand, stale: bits2): Option<seq<byte>> {
    if Gpr(a, Size32) && (Memory(b, Size32) || Memory(b, Size64)) then Some([0x8D] + RmBytes(b, RegIndex(a), stale))
    else None
  }

  function JccCode(cc: condition, a: Operand): Option<seq<byte>> {
    if Number(a, Size8) then Some([0x70 + cc] + LittleEndian(W1, a.ImmOf()))
    else if Number(a, Size16) then Some([0x66, 0x0F, 0x80 + cc] + LittleEndian(W2, a.ImmOf()))
    else if Number(a, Size32) then Some([0x0F, 0x80 + cc] + LittleEndian(W4, a.ImmOf()))
    else None
  }

  function JmpCode(a: Operand, stale: bits2): Option<seq<byte>> {
    var s := a.Size();
    if Number(a, Size8) then Some([0xEB] + LittleEndian(W1, a.ImmOf()))
    else if Number(a, Size16) then Some([0x66, 0xE9] + LittleEndian(W2, a.ImmOf()))
    else if Number(a, Size32) then Some([0xE9] + LittleEndian(W4, a.ImmOf()))
    else if (s == Size16 || s == Size32) && Rm(a, s) then Some(Prefixed(s, [0xFF]) + RmBytes(a, 4, stale))
    else None
  }

  /** The machine code of an instruction, if its operands have one of the machine's forms. */
  function Assembly(i: Instruction, ops: seq<Operand>, stale: bits2): Option<seq<byte>> {
    match i
    case Alu(e) => if |ops| == 2 then AluCode(e, ops[0], ops[1], stale) else None
    case Shift(d) => if |ops| == 2 then ShiftCode(d, ops[0], ops[1], stale) else None
    case Jump(cc) => if |ops| == 1 then JccCode(cc, ops[0]) else None
    case Jmp => if |ops| == 1 then JmpCode(ops[0], stale) else None
    case Lea => if |ops| == 2 then LeaCode(ops[0], ops[1], stale) else None
    case Mov => if |ops| == 2 then MovCode(ops[0], ops[1], stale) else None
  }

  // ----- which row takes an operand list -----

  predicate TagTakes(tag: Tag, kind: OpndKind) {
    match tag
    case NoTag => false
    case OnlyReg => kind == GPReg
    case OnlyImm => kind == Imm
    case RegMem => kind == GPReg || kind == Mem
  }

  predicate Takes(f: Option<Form>, ops: seq<Operand>) {
    && f.Some? && |ops| == f.value.n && 1 <= |ops| <= 2
    && TagTakes(f.value.t0, ops[0].Kind()) && ops[0].Size() == f.value.s0
    && (|ops| == 2 ==> TagTakes(f.value.t1, ops[1].Kind()) && ops[1].Size() == f.value.s1)
  }

  /** The row takes the list and is stored over the rows before it. */
  predicate Prevails(f: Option<Form>, ops: seq<Operand>) {
    && Takes(f, ops)
    && if f.value.t0 == RegMem then ops[0].Kind() == Mem
       else |ops| == 2 && f.value.t1 == RegMem ==> ops[1].Kind() == Mem
  }

  predicate Definite(ops: seq<Operand>) { forall k :: 0 <= k < |ops| ==> ops[k].Kind() != NullKind }

  lemma TagFits(d: OpndDesc, op: Operand)
    requires op.Kind() != NullKind && TagOf(d) != NoTag
    ensures StrictFits(d, op) <==> TagTakes(TagOf(d), op.Kind()) && op.Size() == d.size
    ensures Masked(d) <==> TagOf(d) == RegMem
  {
  }

  /** The form of a row says which lists it takes, and which of them it is stored for over other rows. */
  lemma FormTakes(row: OpcodeDesc, info: OpcodeInfo, f: Option<Form>, ops: seq<Operand>)
    requires FormIs(info, f) && row.opnds == info.opnds && row.roles == info.roles && Definite(ops)
    requires row.decoderOnly == (info.platf in {Platform.Decoder, Decoder32, Decoder64})
    requires f.Some? ==> f.value.t0 != NoTag && (f.value.n == 2 ==> f.value.t1 != NoTag)
    ensures Usable(row, ops) <==> Takes(f, ops)
    ensures Overrides(row, ops) <==> Prevails(f, ops)
  {
    hide TagOf, TagTakes, Masked, StrictFits;
    if f.Some? && |ops| == f.value.n {
      TagFits(row.opnds[0], ops[0]);
      if |ops| == 2 {
        TagFits(row.opnds[1], ops[1]);
      }
    }
  }

  /** The best of the first n rows of a family: the last that prevails, or else the first that takes the list. */
  ghost predicate Best(f: Family, n: nat, ops: seq<Operand>, k: nat) {
    && k < n && Takes(FormAt(f, k), ops)
    && if Prevails(FormAt(f, k), ops) then forall j :: k < j < n ==> !Prevails(FormAt(f, j), ops)
       else forall j :: 0 <= j < n ==> !Prevails(FormAt(f, j), ops) && (j < k ==> !Takes(FormAt(f, j), ops))
  }

  lemma FormOfRow(t: Tables, mn: nat, j: nat, ops: seq<Operand>)
    requires ExcerptTables(t) && 1 <= mn < MNEMONICS && mn != LEA && j < |RowsOf(mn)| && Definite(ops)
    ensures |t.opcodes| == MNEMONICS && |t.opcodes[mn]| == |RowsOf(mn)|
    ensures Usable(t.opcodes[mn][j], ops) <==> Takes(FormAt(FamilyOf(mn), j), ops)
    ensures Overrides(t.opcodes[mn][j], ops) <==> Prevails(FormAt(FamilyOf(mn), j), ops)
  {
    hide ExcerptTables, RowsOf, FormAt, FamilyOf, FormIs, Hashable, Described, Takes, Prevails, StrictMatch;
    RowFields(t, mn, j);
    RowForms(mn, j);
    TagsPresent(mn, j);
    FormTakes(t.opcodes[mn][j], RowsOf(mn)[j], FormAt(FamilyOf(mn), j), ops);
  }

  /** Lookup chooses the best row. */
  lemma BestChosen(t: Tables, mn: nat, ops: seq<Operand>, k: nat)
    requires ExcerptTables(t) && 1 <= mn < MNEMONICS && mn != LEA && Definite(ops)
    requires Best(FamilyOf(mn), |RowsOf(mn)|, ops, k)
    ensures |t.opcodes| == MNEMONICS && |t.opcodes[mn]| == |RowsOf(mn)| && Usable(t.opcodes[mn][k], ops)
    ensures Encodes(t, mn, ops) && ChosenIndex(t, mn, ops) == k
  {
    hide ExcerptTables, RowsOf, FormAt, FamilyOf, Takes, Prevails, Overrides, Hashable, Described, Shapes, Hash,
      Regular, Suits, LeadAt, StrictMatch, Supplies, Slot, Scan;
    FormOfRow(t, mn, k, ops);
    var rows := t.opcodes[mn];
    forall j | 0 <= j < |RowsOf(mn)|
      ensures |rows| == |RowsOf(mn)|
      ensures Usable(rows[j], ops) <==> Takes(FormAt(FamilyOf(mn), j), ops)
      ensures Overrides(rows[j], ops) <==> Prevails(FormAt(FamilyOf(mn), j), ops)
    {
      FormOfRow(t, mn, j, ops);
    }
    RowFields(t, mn, k);
    TakesRegular(FamilyOf(mn), k, ops);
    ExcerptCovered(t);
    assert Indexed(t.maps[mn], rows);
    ChosenExact(rows, ops);
    SelectStrict(rows, t.maps[mn], ops);
    StrictIsLoose(rows[k], ops);
    DescribedSupplies(rows[k], ops);
  }

  lemma TakesRegular(f: Family, k: nat, ops: seq<Operand>)
    requires Takes(FormAt(f, k), ops)
    ensures Regular(Shapes(ops)) && Hash(Shapes(ops)) < HASH_MAX && |ops| <= 2
  {
    hide Regular, Shapes, Hash;
    if |ops| == 1 {
      assert ops == [ops[0]];
      RegularPair(ops[0], ops[0]);
    } else {
      assert ops == [ops[0], ops[1]];
      RegularPair(ops[0], ops[1]);
    }
  }

  // ----- the row for each form -----

  function SizeNumber(s: OpndSize): nat { if s == Size8 then 0 else if s == Size16 then 1 else 2 }

  function AluPick(a: Operand, b: Operand): nat {
    var s := a.Size();
    var n := SizeNumber(s);
    if b.Kind() == GPReg then 8 + n
    else if b.Kind() == Mem then 11 + n
    else if b.Size() == s then 3 + n
    else 5 + n
  }

  function MovPick(a: Operand, b: Operand): nat {
    var n := SizeNumber(a.Size());
    if b.Kind() == GPReg then n
    else if b.Kind() == Mem then 3 + n
    else if a.Kind() == GPReg then 6 + n
    else 9 + n
  }

  function ShiftPick(a: Operand, b: Operand): nat {
    3 * SizeNumber(a.Size()) + if b.Kind() == Imm then 2 else 1
  }

  function JmpPick(a: Operand): nat {
    if a.Kind() == Imm then SizeNumber(a.Size()) else 2 + SizeNumber(a.Size())
  }

  lemma AluBest(e: bits3, a: Operand, b: Operand, stale: bits2)
    ensures AluCode(e, a, b, stale).Some? ==> Best(AluFamily, 14, [a, b], AluPick(a, b))
    ensures AluCode(e, a, b, stale).None? ==> forall j :: 0 <= j < 14 ==> !Takes(FormAt(AluFamily, j), [a, b])
  {
    hide RmBytes, LittleEndian;
  }

  lemma MovBest(a: Operand, b: Operand, stale: bits2)
    ensures MovCode(a, b, stale).Some? ==> Best(MovFamily, 18, [a, b], MovPick(a, b))
    ensures MovCode(a, b, stale).None? ==> forall j :: 0 <= j < 18 ==> !Takes(FormAt(MovFamily, j), [a, b])
  {
    hide RmBytes, LittleEndian;
  }

  lemma ShiftBest(d: bits3, a: Operand, b: Operand, stale: bits2)
    ensures ShiftCode(d, a, b, stale).Some? ==> Best(ShiftFamily, 9, [a, b], ShiftPick(a, b))
    ensures ShiftCode(d, a, b, stale).None? ==> forall j :: 0 <= j < 9 ==> !Takes(FormAt(ShiftFamily, j), [a, b])
  {
    hide RmBytes, LittleEndian;
  }

  lemma JumpBest(cc: condition, a: Operand, stale: bits2)
    ensures JccCode(cc, a).Some? ==> Best(JccFamily, 3, [a], SizeNumber(a.Size()))
    ensures JccCode(cc, a).None? ==> forall j :: 0 <= j < 3 ==> !Takes(FormAt(JccFamily, j), [a])
    ensures JmpCode(a, stale).Some? ==> Best(JmpFamily, 5, [a], JmpPick(a))
    ensures JmpCode(a, stale).None? ==> forall j :: 0 <= j < 5 ==> !Takes(FormAt(JmpFamily, j), [a])
  {
    hide RmBytes, LittleEndian;
  }

  // ----- what each kind of row writes -----

  lemma SlashWrites(p: bool, op: byte, s: OpndSize, rmFirst: bool, roles: seq<Role>, ops: seq<Operand>, stale: bits2)
    requires |roles| == |ops| == 2
    ensures var info := SlashRow(p, op, s, rmFirst, roles);
            && MasterRow(info) && Supplies(CompileRow(info), ops)
            && RowBytes(CompileRow(info), ops, stale) ==
                 Raw16(p, [op]) +
                 if rmFirst then RmBytes(ops[0], RegIndex(ops[1]), stale) else RmBytes(ops[1], RegIndex(ops[0]), stale)
  {
    hide MasterRow, CompileRow, RmBytes;
    SlashCompiles(p, op, s, rmFirst, roles);
  }

  lemma DigitImmWrites(p: bool, op: byte, d: bits3, s: OpndSize, w: Width, written: bool, roles: seq<Role>,
                       ops: seq<Operand>, stale: bits2)
    requires |roles| == |ops| == 2
    ensures var info := DigitImmRow(p, op, d, s, w, written, roles);
            && MasterRow(info) && Supplies(CompileRow(info), ops)
            && RowBytes(CompileRow(info), ops, stale) ==
                 Raw16(p, [op]) + RmBytes(ops[0], d, stale) + LittleEndian(w, ops[1].ImmOf())
  {
    hide MasterRow, CompileRow, RmBytes, LittleEndian;
    DigitImmCompiles(p, op, d, s, w, written, roles);
  }

  lemma ClWrites(p: bool, op: byte, d: bits3, s: OpndSize, ops: seq<Operand>, stale: bits2)
    requires |ops| == 2
    ensures var info := ClRow(p, op, d, s);
            && MasterRow(info) && Supplies(CompileRow(info), ops)
            && RowBytes(CompileRow(info), ops, stale) == Raw16(p, [op]) + RmBytes(ops[0], d, stale)
  {
    hide MasterRow, CompileRow, RmBytes;
    ClCompiles(p, op, d, s);
  }

  lemma DigitWrites(platf: Platform, p: bool, op: byte, d: bits3, s: OpndSize, roles: seq<Role>, a: Operand,
                    stale: bits2)
    requires |roles| == 1
    ensures var info := DigitRow(platf, p, op, d, s, roles);
            && MasterRow(info) && Supplies(CompileRow(info), [a])
            && RowBytes(CompileRow(info), [a], stale) == Raw16(p, [op]) + RmBytes(a, d, stale)
  {
    hide MasterRow, CompileRow, RmBytes;
    DigitCompiles(platf, p, op, d, s, roles);
  }

  lemma PlusWrites(p: bool, base: byte, w: Width, ops: seq<Operand>, stale: bits2)
    requires |ops| == 2 && base <= 0xF8
    ensures var info := PlusRow(p, base, w);
            && MasterRow(info) && Supplies(CompileRow(info), ops)
            && RowBytes(CompileRow(info), ops, stale) ==
                 Raw16(p, [base + RegIndex(ops[0])]) + LittleEndian(w, ops[1].ImmOf())
  {
    hide MasterRow, CompileRow, LittleEndian;
    PlusCompiles(p, base, w);
  }

  lemma RelWrites(p: bool, escape: bool, op: byte, w: Width, a: Operand, stale: bits2)
    ensures var info := RelRow(p, escape, op, w);
            && MasterRow(info) && Supplies(CompileRow(info), [a])
            && RowBytes(CompileRow(info), [a], stale) ==
                 Raw16(p, if escape then [0x0F, op] else [op]) + LittleEndian(w, a.ImmOf())
  {
    hide MasterRow, CompileRow, LittleEndian;
    RelCompiles(p, escape, op, w);
  }

  lemma LeaWrites(s: OpndSize, ops: seq<Operand>, stale: bits2)
    requires |ops| == 2
    ensures var info := LeaRow(s);
            && MasterRow(info) && Supplies(CompileRow(info), ops)
            && RowBytes(CompileRow(info), ops, stale) == [0x8D] + RmBytes(ops[1], RegIndex(ops[0]), stale)
  {
    hide MasterRow, CompileRow, RmBytes;
    LeaCompiles(s);
  }

  /** The master row compiles to a row that writes the given bytes. */
  predicate Writes(info: OpcodeInfo, ops: seq<Operand>, stale: bits2, code: seq<byte>) {
    MasterRow(info) && Supplies(CompileRow(info), ops) && RowBytes(CompileRow(info), ops, stale) == code
  }

  lemma AluWrites(e: bits3, a: Operand, b: Operand, stale: bits2)
    requires AluCode(e, a, b, stale).Some?
    ensures AluPick(a, b) < 14 && Writes(AluRows(e)[AluPick(a, b)], [a, b], stale, AluCode(e, a, b, stale).value)
  {
    hide MasterRow, CompileRow, Supplies, RowBytes, RmBytes, LittleEndian, SlashRow, DigitImmRow, AccRow;
    var s, w, ops := a.Size(), FieldWidth(a.Size()), [a, b];
    var p, roles := s == Size16, [if e == 7 then U else DU, U];
    if b.Kind() == GPReg {
      SlashWrites(p, 8 * e + WideBit(s), s, true, roles, ops, stale);
    } else if b.Kind() == Mem {
      SlashWrites(p, 8 * e + 2 + WideBit(s), s, false, roles, ops, stale);
    } else if b.Size() == s {
      DigitImmWrites(p, 0x80 + WideBit(s), e, s, w, true, roles, ops, stale);
    } else {
      DigitImmWrites(p, 0x83, e, s, W1, true, roles, ops, stale);
    }
  }

  lemma MovWrites(a: Operand, b: Operand, stale: bits2)
    requires MovCode(a, b, stale).Some?
    ensures MovPick(a, b) < 18 && Writes(MovRows()[MovPick(a, b)], [a, b], stale, MovCode(a, b, stale).value)
  {
    hide MasterRow, CompileRow, Supplies, RowBytes, RmBytes, LittleEndian, SlashRow, DigitImmRow, AccRow, PlusRow;
    var s, w, ops := a.Size(), FieldWidth(a.Size()), [a, b];
    var p := s == Size16;
    if b.Kind() == GPReg {
      SlashWrites(p, 0x88 + WideBit(s), s, true, [D, U], ops, stale);
    } else if b.Kind() == Mem {
      SlashWrites(p, 0x8A + WideBit(s), s, false, [D, U], ops, stale);
    } else if a.Kind() == GPReg {
      PlusWrites(p, 0xB0 + 8 * WideBit(s), w, ops, stale);
    } else {
      DigitImmWrites(p, 0xC6 + WideBit(s), 0, s, w, false, [D, U], ops, stale);
    }
  }

  lemma ShiftWrites(d: bits3, a: Operand, b: Operand, stale: bits2)
    requires ShiftCode(d, a, b, stale).Some?
    ensures ShiftPick(a, b) < 9
    ensures Writes(ShiftRows(d)[ShiftPick(a, b)], [a, b], stale, ShiftCode(d, a, b, stale).value)
  {
    hide MasterRow, CompileRow, Supplies, RowBytes, RmBytes, LittleEndian, DigitRow, DigitImmRow, ClRow;
    var s, ops := a.Size(), [a, b];
    if b.Kind() == Imm {
      DigitImmWrites(s == Size16, 0xC0 + WideBit(s), d, s, W1, true, [DU, U], ops, stale);
    } else {
      ClWrites(s == Size16, 0xD2 + WideBit(s), d, s, ops, stale);
    }
  }

  lemma JumpWrites(cc: condition, a: Operand, stale: bits2)
    ensures JccCode(cc, a).Some? ==>
              Number(a, a.Size()) && Writes(Jcc(cc)[SizeNumber(a.Size())], [a], stale, JccCode(cc, a).value)
    ensures JmpCode(a, stale).Some? ==>
              JmpPick(a) < 5 && Writes(JmpRows()[JmpPick(a)], [a], stale, JmpCode(a, stale).value)
  {
    hide MasterRow, CompileRow, Supplies, RowBytes, RmBytes, LittleEndian, DigitRow, RelRow;
    var s := a.Size();
    if a.Kind() == Imm && GpSize(s) {
      RelWrites(s == Size16, s != Size8, if s == Size8 then 0x70 + cc else 0x80 + cc, FieldWidth(s), a, stale);
      RelWrites(s == Size16, false, if s == Size8 then 0xEB else 0xE9, FieldWidth(s), a, stale);
    } else {
      DigitWrites(IA32, s == Size16, 0xFF, 4, s, [U], a, stale);
    }
  }

  // ----- the encoder agrees with the reference -----

  /** What is proved of an instruction and an operand list. */
  ghost predicate Agrees(t: Tables, mn: nat, ops: seq<Operand>, stale: bits2, code: Option<seq<byte>>) {
    && mn < |t.opcodes|
    && (code.Some? <==> exists j :: 0 <= j < |t.opcodes[mn]| && Usable(t.opcodes[mn][j], ops))
    && (code.Some? ==> Encodes(t, mn, ops) && RowBytes(ChosenRow(t, mn, ops), ops, stale) == code.value)
  }

  lemma AgreesByBest(t: Tables, mn: nat, ops: seq<Operand>, stale: bits2, code: Option<seq<byte>>, k: nat)
    requires ExcerptTables(t) && 1 <= mn < MNEMONICS && mn != LEA && Definite(ops)
    requires code.Some? ==>
               Best(FamilyOf(mn), |RowsOf(mn)|, ops, k) && Writes(RowsOf(mn)[k], ops, stale, code.value)
    requires code.None? ==> forall j :: 0 <= j < |RowsOf(mn)| ==> !Takes(FormAt(FamilyOf(mn), j), ops)
    ensures Agrees(t, mn, ops, stale, code)
  {
    hide ExcerptTables, RowsOf, FormAt, FamilyOf, Takes, Best, MasterRow, CompileRow, Supplies, RowBytes, LeadAt,
      Suits, Usable, Encodes, Overrides, Prevails;
    Size(t);
    RowOf(t, mn);
    if code.Some? {
      BestChosen(t, mn, ops, k);
    } else {
      forall j | 0 <= j < |RowsOf(mn)| ensures !Usable(t.opcodes[mn][j], ops) {
        FormOfRow(t, mn, j, ops);
      }
    }
  }

  /** Each number belongs to one family, and to the right member of it. */
  lemma Numbered(i: Instruction)
    requires i != Shift(6)
    ensures var mn := Mnemonic(i);
            && 1 <= mn < MNEMONICS && (mn == LEA <==> i == Lea)
            && match i
               case Alu(e) => RowsOf(mn) == AluRows(e) && FamilyOf(mn) == AluFamily && |RowsOf(mn)| == 14
               case Shift(d) => RowsOf(mn) == ShiftRows(d) && FamilyOf(mn) == ShiftFamily && |RowsOf(mn)| == 9
               case Jump(cc) => RowsOf(mn) == Jcc(cc) && FamilyOf(mn) == JccFamily && |RowsOf(mn)| == 3
               case Jmp => RowsOf(mn) == JmpRows() && FamilyOf(mn) == JmpFamily && |RowsOf(mn)| == 5
               case Lea => RowsOf(mn) == LeaRows()
               case Mov => RowsOf(mn) == MovRows() && FamilyOf(mn) == MovFamily && |RowsOf(mn)| == 18
  {
    hide AluRows, ShiftRows, Jcc, JmpRows, LeaRows, MovRows;
    RowCount(Mnemonic(i));
  }

  /** Every mnemonic of the excerpt has a number. */
  lemma EveryMnemonic(mn: nat) returns (i: Instruction)
    requires 1 <= mn < MNEMONICS
    ensures Mnemonic(i) == mn && i != Shift(6)
  {
    match FamilyOf(mn)
    case AluFamily => i := Alu(Member(mn));
    case ShiftFamily => i := Shift(Member(mn));
    case JccFamily => i := Jump(Member(mn));
    case JmpFamily => i := Jmp;
    case LeaFamily => i := Lea;
    case MovFamily => i := Mov;
  }

  /** The number of operands of the rows for encoding of a family. */
  function Arity(f: Family): nat { if f.JccFamily? || f.JmpFamily? then 1 else 2 }

  lemma WrongCount(f: Family, ops: seq<Operand>)
    requires |ops| != Arity(f)
    ensures forall j :: !Takes(FormAt(f, j), ops)
  {
  }

  lemma LeaAgrees(t: Tables, ops: seq<Operand>, stale: bits2)
    requires ExcerptTables(t) && Definite(ops)
    ensures Agrees(t, LEA, ops, stale, Assembly(Lea, ops, stale))
  {
    hide ExcerptTables, RmBytes, Encodes, CompileRow, MasterRow, Suits, LeadAt, Shapes, Hash, Regular, RowBytes,
      Supplies, Hashable, Described;
    LeaDescs(t);
    RowOf(t, LEA);
    var rows := t.opcodes[LEA];
    if |ops| == 2 {
      forall j | 0 <= j < 2
        ensures Usable(rows[j], ops) <==> Gpr(ops[0], Size32) && Memory(ops[1], if j == 0 then Size32 else Size64)
      {
        assert StrictMatch(rows[j], ops) <==>
               StrictFits(rows[j].opnds[0], ops[0]) && StrictFits(rows[j].opnds[1], ops[1]);
      }
      if LeaCode(ops[0], ops[1], stale).Some? {
        assert ops == [ops[0], ops[1]];
        RegularPair(ops[0], ops[1]);
        LeaChosen(t, ops, if Memory(ops[1], Size32) then 0 else 1);
        LeaWrites(Size32, ops, stale);
        LeaWrites(Size64, ops, stale);
      }
    }
  }

  lemma LeaChosen(t: Tables, ops: seq<Operand>, k: nat)
    requires ExcerptTables(t) && |t.opcodes| == MNEMONICS && |t.opcodes[LEA]| == 2 && k < 2 && |ops| == 2
    requires Regular(Shapes(ops)) && Hash(Shapes(ops)) < HASH_MAX
    requires Usable(t.opcodes[LEA][k], ops) && !Usable(t.opcodes[LEA][1 - k], ops)
    ensures Encodes(t, LEA, ops) && ChosenIndex(t, LEA, ops) == k
  {
    hide ExcerptTables, Shapes, Hash, Regular, StrictMatch, Hashable, Described, Supplies, Slot, Scan;
    ExcerptCovered(t);
    assert Indexed(t.maps[LEA], t.opcodes[LEA]);
    SelectStrict(t.opcodes[LEA], t.maps[LEA], ops);
    assert |RowsOf(LEA)| == 2;
    RowFields(t, LEA, k);
    StrictIsLoose(t.opcodes[LEA][k], ops);
    DescribedSupplies(t.opcodes[LEA][k], ops);
  }

  /**
   * The encoder is the reference assembler: for every instruction and every list of operands, some row takes
   * the list as it is exactly when the machine has a form for it, and then the bytes written are that form.
   */
  lemma Assembles(t: Tables, i: Instruction, ops: seq<Operand>, stale: bits2)
    requires ExcerptTables(t) && i != Shift(6) && Definite(ops)
    ensures Agrees(t, Mnemonic(i), ops, stale, Assembly(i, ops, stale))
  {
    hide ExcerptTables, Agrees, Best, Writes, Takes, FormAt, RowsOf, FamilyOf, Mnemonic, AluRows, ShiftRows, Jcc,
      JmpRows, LeaRows, MovRows, AluCode, MovCode, ShiftCode, LeaCode, JccCode, JmpCode, AluPick, MovPick, ShiftPick,
      JmpPick, SizeNumber, Definite;
    Numbered(i);
    var mn, code := Mnemonic(i), Assembly(i, ops, stale);
    if i == Lea {
      LeaAgrees(t, ops, stale);
    } else if |ops| != Arity(FamilyOf(mn)) {
      WrongCount(FamilyOf(mn), ops);
      AgreesByBest(t, mn, ops, stale, code, 0);
    } else if |ops| == 1 {
      var a := ops[0];
      assert ops == [a];
      JumpBest(if i.Jump? then i.cc else 0, a, stale);
      JumpWrites(if i.Jump? then i.cc else 0, a, stale);
      AgreesByBest(t, mn, ops, stale, code, if i.Jump? then SizeNumber(a.Size()) else JmpPick(a));
    } else {
      assert ops == [ops[0], ops[1]];
      PairAssembles(t, i, ops[0], ops[1], stale);
    }
  }

  lemma PairAssembles(t: Tables, i: Instruction, a: Operand, b: Operand, stale: bits2)
    requires ExcerptTables(t) && i != Shift(6) && Definite([a, b]) && (i.Alu? || i.Shift? || i.Mov?)
    ensures Agrees(t, Mnemonic(i), [a, b], stale, Assembly(i, [a, b], stale))
  {
    hide ExcerptTables, Agrees, Best, Writes, Takes, FormAt, RowsOf, FamilyOf, Mnemonic, AluRows, ShiftRows, Jcc,
      JmpRows, LeaRows, MovRows, AluCode, MovCode, ShiftCode, LeaCode, JccCode, JmpCode, AluPick, MovPick, ShiftPick,
      JmpPick, SizeNumber, Definite;
    Numbered(i);
    var mn, code := Mnemonic(i), Assembly(i, [a, b], stale);
    match i
    case Alu(e) =>
      AluBest(e, a, b, stale);
      if code.Some? { AluWrites(e, a, b, stale); }
      AgreesByBest(t, mn, [a, b], stale, code, AluPick(a, b));
    case Shift(d) =>
      ShiftBest(d, a, b, stale);
      if code.Some? { ShiftWrites(d, a, b, stale); }
      AgreesByBest(t, mn, [a, b], stale, code, ShiftPick(a, b));
    case Mov =>
      MovBest(a, b, stale);
      if code.Some? { MovWrites(a, b, stale); }
      AgreesByBest(t, mn, [a, b], stale, code, MovPick(a, b));
  }

  /** Machine code is decoded as the instruction it was assembled from, whatever lies around it. */
  lemma Disassembles(t: Tables, i: Instruction, ops: seq<Operand>, stale: bits2, code: Code, at: nat)
    requires ExcerptTables(t) && i != Shift(6) && AllProper(ops)
    requires Assembly(i, ops, stale).Some? && Holds(code, at, Assembly(i, ops, stale).value)
    ensures PrefixEnd(code, at) == at && |t.opcodes| == MNEMONICS && 1 <= Mnemonic(i) < MNEMONICS
    ensures exists j: nat :: j < |t.opcodes[Mnemonic(i)]| && FirstInTable(t.opcodes, code, at, Mnemonic(i), j) &&
                             RowLength(t.opcodes[Mnemonic(i)][j], code, at) == |Assembly(i, ops, stale).value|
  {
    hide ExcerptTables, Assembly, Mnemonic, Hashable, StrictMatch, AllProper, Holds, RowBytes, PrefixEnd, RepeatsGroup,
      FirstInTable, RowLength, Encodes, RowsOf, FamilyOf, LeadAt, Suits, Described, Regular, Shapes, Hash, Returned,
      Completed, AllSurvive, FixedHold, RowAccepts, EncodedCount, Searchable, RowOperands;
    var mn := Mnemonic(i);
    Numbered(i);
    ProperDefinite(ops);
    Assembles(t, i, ops, stale);
    Size(t);
    var k :| 0 <= k < |t.opcodes[mn]| && Usable(t.opcodes[mn][k], ops);
    RowOf(t, mn);
    RowFields(t, mn, k);
    TakenCount(t.opcodes[mn][k], ops);
    FewOperands(i, ops, stale);
    FitRegular(t.opcodes[mn][k], ops);
    ExcerptDecode(t, mn, ops, stale, code, at);
    assert FoundAs(mn, ChosenIndex(t, mn, ops)) < |t.opcodes[mn]|;
  }

  lemma ProperDefinite(ops: seq<Operand>)
    requires AllProper(ops)
    ensures Definite(ops)
  {
    forall k | 0 <= k < |ops| ensures ops[k].Kind() != NullKind {
      assert Proper(ops[k]);
    }
  }

  lemma TakenCount(row: OpcodeDesc, ops: seq<Operand>)
    requires StrictMatch(row, ops)
    ensures |ops| == |row.roles|
  {
  }

  lemma FewOperands(i: Instruction, ops: seq<Operand>, stale: bits2)
    requires Assembly(i, ops, stale).Some?
    ensures 1 <= |ops| <= 2
  {
  }
}
