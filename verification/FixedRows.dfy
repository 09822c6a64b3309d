/**
 * A second part of the master table: CMPXCHG, FUCOMI, IDIV, SETZ and SHLD, whose rows end or begin with fixed
 * registers, add an FPU register to the opcode, or leave an element for the compiler to supply.
 */
module FixedRows {
  import opened Basics
  import opened X86
  import opened Rows
  import opened RowNotation
  import opened ModRM
  import opened OperandHash
  import opened TableBuilder
  import opened Encoder
  import opened Decoder
  import opened RoundTrip

  // ----- the rows -----

  const CMPXCHG: nat := 1
  const FUCOMI: nat := 2
  const IDIV: nat := 3
  const SETZ: nat := 4
  const SHLD: nat := 5

  function Master(mn: nat): seq<OpcodeInfo>
    requires mn < 6
  {
    match mn
    case 0 => []
    case 1 =>
      [ OpcodeInfo(AnyPlatform, [Byte(0x0F), Byte(0xB0), Part(SlashR)],
                   [RM(Size8), R(Size8), Fix(Size8, 0)], [DU, DU, DU]),
        OpcodeInfo(AnyPlatform, [Byte(0x66), Byte(0x0F), Byte(0xB1), Part(SlashR)],
                   [RM(Size16), R(Size16), Fix(Size16, 0)], [DU, DU, DU]),
        OpcodeInfo(AnyPlatform, [Byte(0x0F), Byte(0xB1), Part(SlashR)],
                   [RM(Size32), R(Size32), Fix(Size32, 0)], [DU, DU, DU]),
        OpcodeInfo(EM64T, [RexW, Byte(0x0F), Byte(0xB1), Part(SlashR)],
                   [RM(Size64), R(Size64), Fix(Size64, 0)], [DU, DU, DU]) ]
    case 2 =>
      [ OpcodeInfo(AnyPlatform, [Byte(0xDB), Part(PlusI(0xE8))], [Fp(Size32), NO_DESC, NO_DESC], [DU]),
        OpcodeInfo(AnyPlatform, [Byte(0xDB), Part(PlusI(0xE8))], [Fp(Size64), NO_DESC, NO_DESC], [DU]) ]
    case 3 =>
      [ OpcodeInfo(AnyPlatform, [Byte(0xF6), Part(SlashNum(7))],
                   [Fix(Size8, 4), Fix(Size8, 0), RM(Size8)], [DU, DU, U]),
        OpcodeInfo(AnyPlatform, [Byte(0x66), Byte(0xF7), Part(SlashNum(7))],
                   [Fix(Size16, 2), Fix(Size16, 0), RM(Size16)], [DU, DU, U]),
        OpcodeInfo(AnyPlatform, [Byte(0xF7), Part(SlashNum(7))],
                   [Fix(Size32, 2), Fix(Size32, 0), RM(Size32)], [DU, DU, U]),
        OpcodeInfo(EM64T, [RexW, Byte(0xF7), Part(SlashNum(7))],
                   [Fix(Size64, 2), Fix(Size64, 0), RM(Size64)], [DU, DU, U]) ]
    case 4 =>
      [ OpcodeInfo(AnyPlatform, [Byte(0x0F), Byte(0x94)], [RM(Size8), NO_DESC, NO_DESC], [DU]) ]
    case 5 =>
      [ OpcodeInfo(AnyPlatform, [Byte(0x0F), Byte(0xA5)], [RM(Size32), R(Size32), Fix(Size8, 1)], [DU, DU, U]),
        OpcodeInfo(AnyPlatform, [Byte(0x0F), Byte(0xA4)], [RM(Size32), R(Size32), I(Size8)], [DU, DU, U]) ]
  }

  /** The same rows compiled: two fixed registers are skipped, /0 and /r are supplied. */
  function Compiled(mn: nat): seq<OpcodeDesc>
    requires mn < 6
  {
    match mn
    case 0 => []
    case 1 =>
      [ RawDesc([0x0F, 0xB0], SlashR, NoAux, [RM(Size8), R(Size8), Fix(Size8, 0)], 0, [DU, DU, DU], false),
        RawDesc([0x66, 0x0F, 0xB1], SlashR, NoAux, [RM(Size16), R(Size16), Fix(Size16, 0)], 0, [DU, DU, DU], false),
        RawDesc([0x0F, 0xB1], SlashR, NoAux, [RM(Size32), R(Size32), Fix(Size32, 0)], 0, [DU, DU, DU], false) ]
    case 2 =>
      [ RawDesc([0xDB], PlusI(0xE8), NoAux, [Fp(Size32), NO_DESC, NO_DESC], 0, [DU], false),
        RawDesc([0xDB], PlusI(0xE8), NoAux, [Fp(Size64), NO_DESC, NO_DESC], 0, [DU], false) ]
    case 3 =>
      [ RawDesc([0xF6], SlashNum(7), NoAux, [Fix(Size8, 4), Fix(Size8, 0), RM(Size8)], 2, [DU, DU, U], false),
        RawDesc([0x66, 0xF7], SlashNum(7), NoAux, [Fix(Size16, 2), Fix(Size16, 0), RM(Size16)], 2, [DU, DU, U], false),
        RawDesc([0xF7], SlashNum(7), NoAux, [Fix(Size32, 2), Fix(Size32, 0), RM(Size32)], 2, [DU, DU, U], false) ]
    case 4 =>
      [ RawDesc([0x0F, 0x94], SlashNum(0), NoAux, [RM(Size8), NO_DESC, NO_DESC], 0, [DU], false) ]
    case 5 =>
      [ RawDesc([0x0F, 0xA5], SlashR, NoAux, [RM(Size32), R(Size32), Fix(Size8, 1)], 0, [DU, DU, U], false),
        RawDesc([0x0F, 0xA4], SlashR, ImmField(W1), [RM(Size32), R(Size32), I(Size8)], 0, [DU, DU, U], false) ]
  }

  predicate CompilesTo(info: OpcodeInfo, row: OpcodeDesc) {
    !Skipped(info) && MasterRow(info) && CompileRow(info) == row
  }

  lemma CompilesCmpxchg(i: nat)
    requires i < 3
    ensures CompilesTo(Master(1)[i], Compiled(1)[i])
  {
    hide RawCount, RawBytes;
    RawOf(Master(1)[i].opcode, Compiled(1)[i].opcode, [Part(SlashR)]);
    KindsOf();
  }

  lemma KindsOf()
    ensures {GPReg, Mem} != {Imm} && {GPReg} != {Imm} && {FPReg} != {Imm} && {} != {Imm}
    ensures RegKinds({GPReg}) && !RegKinds({Imm})
  {
    assert Imm in {Imm} && Imm !in {GPReg, Mem} && Imm !in {GPReg} && Imm !in {FPReg};
  }

  lemma CompilesFucomi(i: nat)
    requires i < 2
    ensures CompilesTo(Master(2)[i], Compiled(2)[i])
  {
    hide RawCount, RawBytes;
    RawOf(Master(2)[i].opcode, Compiled(2)[i].opcode, [Part(PlusI(0xE8))]);
    KindsOf();
  }

  lemma CompilesIdiv(i: nat)
    requires i < 3
    ensures CompilesTo(Master(3)[i], Compiled(3)[i])
  {
    hide RawCount, RawBytes;
    RawOf(Master(3)[i].opcode, Compiled(3)[i].opcode, [Part(SlashNum(7))]);
    KindsOf();
  }

  lemma CompilesOthers(i: nat)
    requires i < 2
    ensures CompilesTo(Master(4)[0], Compiled(4)[0]) && CompilesTo(Master(5)[i], Compiled(5)[i])
  {
    hide RawCount, RawBytes;
    RawOf(Master(4)[0].opcode, Compiled(4)[0].opcode, []);
    RawOf(Master(5)[i].opcode, Compiled(5)[i].opcode, []);
    KindsOf();
  }

  lemma AllCompile(mn: nat, i: nat)
    requires 1 <= mn < 6 && i < |Compiled(mn)|
    ensures i < |Master(mn)| && CompilesTo(Master(mn)[i], Compiled(mn)[i])
  {
    hide CompilesTo;
    match mn
    case 1 => CompilesCmpxchg(i);
    case 2 => CompilesFucomi(i);
    case 3 => CompilesIdiv(i);
    case 4 => CompilesOthers(0);
    case 5 => CompilesOthers(i);
  }

  // ----- the rows suit -----

  lemma Descs(s: OpndSize, index: bits3)
    requires s == Size8 || s == Size16 || s == Size32
    ensures HashableDesc(R(s)) && HashableDesc(RM(s)) && HashableDesc(I(s)) && HashableDesc(Fix(s, index))
    ensures Masked(RM(s)) && !Masked(R(s)) && !Masked(I(s)) && !Masked(Fix(s, index))
    ensures HashableDesc(Fp(Size32)) && HashableDesc(Fp(Size64)) && !Masked(Fp(Size32)) && !Masked(Fp(Size64))
  {
    assert RM(s).kinds == {GPReg, Mem} && RM(s).kinds - {Mem} == {GPReg};
    assert GPReg in {GPReg, XMMReg, FPReg, SReg};
  }

  lemma AllDescs()
    ensures forall s :: s == Size8 || s == Size16 || s == Size32 ==>
              && HashableDesc(R(s)) && HashableDesc(RM(s)) && HashableDesc(I(s))
              && Masked(RM(s)) && !Masked(R(s)) && !Masked(I(s))
    ensures forall s, index :: s == Size8 || s == Size16 || s == Size32 ==>
              HashableDesc(Fix(s, index)) && !Masked(Fix(s, index))
    ensures HashableDesc(Fp(Size32)) && HashableDesc(Fp(Size64)) && !Masked(Fp(Size32)) && !Masked(Fp(Size64))
  {
    forall s: OpndSize, index: bits3 | s == Size8 || s == Size16 || s == Size32
      ensures HashableDesc(R(s)) && HashableDesc(RM(s)) && HashableDesc(I(s)) && HashableDesc(Fix(s, index))
      ensures Masked(RM(s)) && !Masked(R(s)) && !Masked(I(s)) && !Masked(Fix(s, index))
    {
      Descs(s, index);
    }
    Descs(Size8, 0);
  }

  lemma AllHashable(mn: nat, i: nat)
    requires 1 <= mn < 6 && i < |Compiled(mn)|
    ensures Hashable(Compiled(mn)[i]) && !Compiled(mn)[i].decoderOnly && Legible(Compiled(mn)[i])
  {
    AllDescs();
    hide HashableDesc, Masked, R, RM, I, Fix, Fp;
  }

  /** A row led by a general register or an r/m operand hashes within the map. */
  lemma LedInRange(row: OpcodeDesc)
    requires Hashable(row) && |row.roles| > 0 && GPReg in row.opnds[0].kinds
    ensures InRange(row)
  {
    hide Hash, HashableDesc, MaskKind, Regular;
    var d := row.opnds[0];
    RegularHalves(row);
    if !Masked(d) {
      PlainGp(d);
    }
    if Split(row).None? {
      HashInRange(RowShapes(row));
    } else {
      var k := Split(row).value;
      var kind := MaskedKinds(row.opnds[k]);
      assert MaskKind({Mem}) == Mem by { MaskOfMem(); }
      HashInRange(RegHalf(row));
      HashInRange(MemHalf(row));
    }
  }

  lemma PlainGp(d: OpndDesc)
    requires HashableDesc(d) && !Masked(d) && GPReg in d.kinds
    ensures MaskKind(d.kinds) == GPReg
  {
    assert d.kinds == {MaskKind(d.kinds)};
  }

  lemma MaskOfMem()
    ensures MaskKind({Mem}) == Mem
  {
    assert Mem in {Mem};
  }

  lemma AllInRange(mn: nat, i: nat)
    requires 1 <= mn < 6 && i < |Compiled(mn)|
    ensures InRange(Compiled(mn)[i])
  {
    hide Hashable, InRange;
    AllHashable(mn, i);
    if mn == 2 {
      HashableInRange(Compiled(mn)[i]);
    } else {
      LedInRange(Compiled(mn)[i]);
    }
  }

  /** Rows whose opcodes differ where both have a byte are disjoint. */
  lemma OpcodesApart(a: OpcodeDesc, b: OpcodeDesc, k: nat)
    requires k < |a.opcode| && k < |b.opcode| && a.opcode[k] != b.opcode[k]
    ensures Disjoint(a, b)
  {
    assert Clash(PatternAt(a, k), PatternAt(b, k));
  }

  lemma AllApart(mn: nat, i: nat, m: nat, j: nat)
    requires 1 <= mn < 6 && i < |Compiled(mn)| && 1 <= m < 6 && j < |Compiled(m)| && (mn != m || i != j)
    requires !(mn == FUCOMI && m == FUCOMI)
    ensures Disjoint(Compiled(m)[j], Compiled(mn)[i])
  {
    hide Disjoint, R, RM, I, Fix, Fp;
    var a, b := Compiled(m)[j], Compiled(mn)[i];
    OpcodesApart(a, b, if a.opcode[0] != b.opcode[0] then 0 else 1);
  }

  // ----- the tables -----

  ghost predicate FixedTables(t: Tables) {
    Built(t) && |t.opcodes| == 6 && forall mn :: 0 <= mn < 6 ==> t.opcodes[mn] == Compiled(mn)
  }

  lemma TablesSuit(t: Tables)
    requires FixedTables(t)
    ensures WellFormed(t)
    ensures forall mn, i :: 1 <= mn < 6 && 0 <= i < |t.opcodes[mn]| && !(mn == FUCOMI && i == 1) ==>
              Distinguished(t.opcodes, mn, i)
  {
    hide Compiled, Hashable, Legible, Disjoint, Built;
    forall mn, i | 0 <= mn < 6 && 0 <= i < |t.opcodes[mn]|
      ensures Hashable(t.opcodes[mn][i]) && Searchable(t.opcodes[mn][i])
    {
      if mn == 0 {
        NoRows();
      } else {
        AllHashable(mn, i);
        LegibleSearchable(t.opcodes[mn][i]);
      }
    }
    forall mn, i | 1 <= mn < 6 && 0 <= i < |t.opcodes[mn]| && !(mn == FUCOMI && i == 1)
      ensures Distinguished(t.opcodes, mn, i)
    {
      NoRows();
      forall m, j | 1 <= m < |t.opcodes| && 0 <= j < |t.opcodes[m]| && Before(m, j, mn, i)
        ensures Disjoint(t.opcodes[m][j], t.opcodes[mn][i])
      {
        AllApart(mn, i, m, j);
      }
    }
  }

  lemma NoRows()
    ensures Compiled(0) == [] && |Compiled(FUCOMI)| == 2
  {
  }

  lemma LegibleSearchable(row: OpcodeDesc)
    requires Legible(row)
    ensures Searchable(row)
  {
  }

  /** At most the last row of a list is of another build. */
  lemma LastSkipped(mn: nat)
    requires mn < 6
    ensures |Compiled(mn)| <= |Master(mn)| <= |Compiled(mn)| + 1 && |Master(mn)| < 25
    ensures |Master(mn)| > |Compiled(mn)| ==> Skipped(Master(mn)[|Compiled(mn)|])
  {
  }

  lemma KeptMaster(mn: nat)
    requires mn < 6
    ensures Kept(Master(mn)) == Master(mn)[..|Compiled(mn)|] && |Compiled(mn)| <= |Master(mn)| < 25
  {
    hide Compiled, Master, CompilesTo, Skipped;
    LastSkipped(mn);
    var n := |Compiled(mn)|;
    var front, rest := Master(mn)[..n], Master(mn)[n..];
    assert Master(mn) == front + rest;
    KeptAppend(front, rest);
    forall x | x in front ensures !Skipped(x) {
      var i :| 0 <= i < n && front[i] == x;
      NotNull(mn, i);
      RowKept(mn, i);
    }
    KeptAll(front);
    assert Kept(rest) == [];
  }

  lemma RowKept(mn: nat, i: nat)
    requires 1 <= mn < 6 && i < |Compiled(mn)|
    ensures i < |Master(mn)| && !Skipped(Master(mn)[i])
  {
    hide Compiled, Master;
    AllCompile(mn, i);
  }

  /** The tables the compiler builds from these rows. */
  method BuildFixed() returns (t: Tables)
    ensures FixedTables(t)
  {
    hide Compiled, Master, Kept, Compile, MasterRow, CompileRow, InRange, Built;
    var master := seq(6, mn requires 0 <= mn < 6 => Master(mn));
    forall mn | 0 <= mn < 6 ensures Buildable(master[mn]) {
      MasterBuildable(mn);
    }
    t := BuildTable(master);
    forall mn | 0 <= mn < 6 ensures t.opcodes[mn] == Compiled(mn) {
      assert master[mn] == Master(mn);
      MasterBuildable(mn);
    }
  }

  lemma MasterBuildable(mn: nat)
    requires mn < 6
    ensures Buildable(Master(mn)) && Compilable(Master(mn)) && Compile(Master(mn)) == Compiled(mn)
  {
    hide Compiled, Master, Kept, Compile, MasterRow, CompileRow, InRange, Skipped;
    KeptMaster(mn);
    forall x | x in Master(mn) ensures Skipped(x) || (MasterRow(x) && InRange(CompileRow(x))) {
      if !Skipped(x) {
        assert x in Kept(Master(mn));
        var i :| 0 <= i < |Compiled(mn)| && Master(mn)[i] == x;
        NotNull(mn, i);
        AllCompile(mn, i);
        AllInRange(mn, i);
      }
    }
    CompileKept(Master(mn));
    forall i | 0 <= i < |Compiled(mn)| ensures Compile(Master(mn))[i] == Compiled(mn)[i] {
      NotNull(mn, i);
      AllCompile(mn, i);
    }
  }

  lemma NotNull(mn: nat, i: nat)
    requires mn < 6 && i < |Compiled(mn)|
    ensures 1 <= mn
  {
  }

  // ----- what is written and read -----

  const EAX: RegName := Reg(GPReg, Size32, 0)
  const ECX: RegName := Reg(GPReg, Size32, 1)
  const EDX: RegName := Reg(GPReg, Size32, 2)
  const EBX: RegName := Reg(GPReg, Size32, 3)

  /** A list that one row alone takes as it is gets that row. */
  lemma OnlyRowChosen(t: Tables, mn: nat, ops: seq<Operand>, k: nat)
    requires FixedTables(t) && 1 <= mn < 6 && k < |Compiled(mn)| && Supplies(Compiled(mn)[k], ops)
    requires Regular(Shapes(ops)) && Hash(Shapes(ops)) < HASH_MAX && Usable(Compiled(mn)[k], ops)
    requires forall j :: 0 <= j < |Compiled(mn)| && j != k ==> !Usable(Compiled(mn)[j], ops)
    ensures Encodes(t, mn, ops) && ChosenIndex(t, mn, ops) == k && ChosenRow(t, mn, ops) == Compiled(mn)[k]
    ensures !(mn == FUCOMI && k == 1) ==> Locatable(t, mn, ops)
  {
    hide Compiled, Shapes, Hash, Regular, StrictMatch, Hashable, Legible, Distinguished, SearchableTable, Supplies;
    TablesSuit(t);
    AllHashable(mn, k);
    assert Indexed(t.maps[mn], t.opcodes[mn]);
    SelectStrict(t.opcodes[mn], t.maps[mn], ops);
    assert |ops| <= 3 by { ShapesCount(ops); }
  }

  lemma ShapesCount(ops: seq<Operand>)
    requires Regular(Shapes(ops))
    ensures |ops| <= 3
  {
    assert |Shapes(ops)| == |ops|;
  }

  lemma RegularList(ops: seq<Operand>)
    requires |ops| <= 3 && forall i :: 0 <= i < |ops| ==> RegularShape(ShapeOf(ops[i]))
    requires |ops| < 3 || ops[0].Kind() == GPReg || ops[0].Kind() == Mem
    ensures Regular(Shapes(ops)) && Hash(Shapes(ops)) < HASH_MAX
  {
    HashInRange(Shapes(ops));
  }

  /** IDIV of a register or memory operand, with the operands the wrapper passes. */
  function IdivOps(a: Operand): seq<Operand> { [RegOpnd(EAX), RegOpnd(EDX), a] }

  predicate Divisor(a: Operand) {
    Proper(a) && (a.Kind() == GPReg || a.Kind() == Mem) && a.Size() == Size32
  }

  lemma IdivChosen(t: Tables, a: Operand)
    requires FixedTables(t) && Divisor(a)
    ensures Locatable(t, IDIV, IdivOps(a)) && ChosenRow(t, IDIV, IdivOps(a)) == Compiled(IDIV)[2]
    ensures ChosenIndex(t, IDIV, IdivOps(a)) == 2
  {
    hide Shapes, Hash, Regular, FixedTables, Locatable, Encodes;
    var ops, rows := IdivOps(a), Compiled(IDIV);
    RegularList(ops);
    forall i | 0 <= i < 3 ensures StrictFits(rows[2].opnds[i], ops[i]) {
    }
    assert !StrictFits(rows[0].opnds[0], ops[0]) && !StrictFits(rows[1].opnds[0], ops[0]);
    OnlyRowChosen(t, IDIV, ops, 2);
  }

  /** The divisor is what is encoded, and what the decoder reads back; it is unchanged exactly when it survives. */
  lemma IdivRoundTrip(t: Tables, a: Operand, stale: bits2, code: Code, at: nat)
    requires FixedTables(t) && Divisor(a)
    ensures Locatable(t, IDIV, IdivOps(a))
    ensures var row := ChosenRow(t, IDIV, IdivOps(a));
            && RowBytes(row, IdivOps(a), stale) == [0xF7] + RmBytes(a, 7, stale)
            && (Holds(code, at, RowBytes(row, IdivOps(a), stale)) ==>
                  && FirstInTable(t.opcodes, code, at, IDIV, 2)
                  && RowLength(row, code, at) == 1 + |RmBytes(a, 7, stale)|
                  && Searchable(row) && RowAccepts(row, code, at) && |RowOperands(row, code, at)| == 1
                  && (RowOperands(row, code, at)[0] == a <==> Sound(a) && ScaleKept(a)))
  {
    hide FixedTables, Encodes, Distinguished, SearchableTable, Holds, RmBytes, RowLength, RowAccepts, RowOperands,
      FirstInTable, PrefixEnd, RepeatsGroup, Sound, ScaleKept, Decodable;
    IdivChosen(t, a);
    var ops, row := IdivOps(a), Compiled(IDIV)[2];
    assert [0xF7] + RmBytes(a, 7, stale) + [] == [0xF7] + RmBytes(a, 7, stale);
    if Holds(code, at, RowBytes(row, ops, stale)) {
      EncodeDecode(t, IDIV, ops, stale, code, at);
      IdivFront(a);
      FrontRoundTrip(row, ops, stale, code, at);
      assert ops[2..] == [a] && [a][..1] == [a];
      FrontSurvives(Front(row), a, RowOperands(row, code, at));
    }
  }

  lemma IdivFront(a: Operand)
    requires Divisor(a)
    ensures var row := Compiled(IDIV)[2];
            && Aligned(row) && Described(Front(row)) && Searchable(row) && EncodedCount(row) == 1
            && Front(row).opnds[0].size == Size32
            && LooseMatch(Front(row), IdivOps(a)[2..]) && AllProper(IdivOps(a)[2..])
  {
    var row := Compiled(IDIV)[2];
    assert IdivOps(a)[2..] == [a] && row.roles[2..] == [U];
    assert RM(Size32).kinds - {Mem} == {GPReg};
  }

  lemma FrontSurvives(row: OpcodeDesc, a: Operand, got: seq<Operand>)
    requires Returned(row, [a], got) && row.opnds[0].size == a.Size()
    ensures |got| == 1 && (got[0] == a <==> Sound(a) && ScaleKept(a))
  {
    hide RecoveredAs, Sound, ScaleKept;
    assert [a][0] == a;
  }

  /** IDIV ECX. */
  lemma IdivEcx(t: Tables, stale: bits2)
    requires FixedTables(t)
    ensures var ops := IdivOps(RegOpnd(ECX));
            Encodes(t, IDIV, ops) && RowBytes(ChosenRow(t, IDIV, ops), ops, stale) == [0xF7, 0xF9]
  {
    hide FixedTables, Encodes, Distinguished, SearchableTable, RowBytes;
    IdivRoundTrip(t, RegOpnd(ECX), stale, [], 0);
  }

  /** FUCOMI ST(r): the register is added to the second byte, and is all that tells instructions apart. */
  lemma FucomiStack(t: Tables, r: bits3, double: bool, stale: bits2, code: Code, at: nat)
    requires FixedTables(t)
    ensures var ops := [RegOpnd(Reg(FPReg, if double then Size64 else Size32, r))];
            && Encodes(t, FUCOMI, ops)
            && RowBytes(ChosenRow(t, FUCOMI, ops), ops, stale) == [0xDB, 0xE8 + r]
    ensures Holds(code, at, [0xDB, 0xE8 + r]) ==>
              && FirstInTable(t.opcodes, code, at, FUCOMI, 0) && PrefixEnd(code, at) == at
              && var row := t.opcodes[FUCOMI][0];
                 && RowLength(row, code, at) == 2
                 && Searchable(row) && RowAccepts(row, code, at) && RowOperands(row, code, at) == []
  {
    var ops := [RegOpnd(Reg(FPReg, if double then Size64 else Size32, r))];
    FucomiChosen(t, r, double);
    FucomiBytes(r, double, stale);
    if Holds(code, at, [0xDB, 0xE8 + r]) {
      hide FixedTables, Distinguished, Holds, RowLength, PrefixEnd, RepeatsGroup, Legible, FirstInTable, RowBytes,
        Encodes;
      FucomiBytes(r, false, stale);
      AllHashable(FUCOMI, 0);
      LengthRoundTrip(Compiled(FUCOMI)[0], [RegOpnd(Reg(FPReg, Size32, r))], stale, code, at);
      FirstRowIs(t);
      FoundFirst(t.opcodes, FUCOMI, 0, code, at);
    }
  }

  lemma FirstRowIs(t: Tables)
    requires FixedTables(t)
    ensures |t.opcodes| == 6 && t.opcodes[FUCOMI] == Compiled(FUCOMI) && Distinguished(t.opcodes, FUCOMI, 0)
  {
    hide Distinguished;
    TablesSuit(t);
  }

  lemma FucomiChosen(t: Tables, r: bits3, double: bool)
    requires FixedTables(t)
    ensures var ops := [RegOpnd(Reg(FPReg, if double then Size64 else Size32, r))];
            var k := if double then 1 else 0;
            && Encodes(t, FUCOMI, ops) && ChosenRow(t, FUCOMI, ops) == Compiled(FUCOMI)[k]
  {
    hide Shapes, Hash, Regular, FixedTables, Locatable, Encodes;
    var ops, rows := [RegOpnd(Reg(FPReg, if double then Size64 else Size32, r))], Compiled(FUCOMI);
    var k := if double then 1 else 0;
    RegularList(ops);
    assert StrictFits(rows[k].opnds[0], ops[0]) && !StrictFits(rows[1 - k].opnds[0], ops[0]);
    OnlyRowChosen(t, FUCOMI, ops, k);
  }

  lemma FucomiBytes(r: bits3, double: bool, stale: bits2)
    ensures var ops := [RegOpnd(Reg(FPReg, if double then Size64 else Size32, r))];
            var row := Compiled(FUCOMI)[if double then 1 else 0];
            Supplies(row, ops) && RowBytes(row, ops, stale) == [0xDB, 0xE8 + r]
  {
  }

  /** LOCK CMPXCHG [EBX], ECX: the prefix is counted, and the instruction behind it is found. */
  method LockCmpxchg(t: Tables, code: Code, at: nat) returns (size: nat, inst: Inst)
    requires FixedTables(t) && Holds(code, at, [0xF0, 0x0F, 0xB1, 0x0B])
    ensures fresh(inst) && inst.Valid()
    ensures size == 4 && inst.mn == CMPXCHG && inst.prefc == 1 && inst.pref[0] == 0xF0
  {
    hide FixedTables, Locatable, Encodes, RowBytes, Decodable;
    ghost var ops := [MemOpnd(Size32, EBX, NoReg, 0, 0), RegOpnd(ECX), RegOpnd(EAX)];
    CmpxchgChosen(t);
    HoldsSplit(code, at, [0xF0], [0x0F, 0xB1, 0x0B]);
    assert [0xF0] + [0x0F, 0xB1, 0x0B] == [0xF0, 0x0F, 0xB1, 0x0B];
    HoldsAt(code, at, [0xF0], 0);
    size, inst := DecodePrefixed(t, CMPXCHG, ops, 0, code, at);
  }

  lemma CmpxchgChosen(t: Tables)
    requires FixedTables(t)
    ensures var ops := [MemOpnd(Size32, EBX, NoReg, 0, 0), RegOpnd(ECX), RegOpnd(EAX)];
            Locatable(t, CMPXCHG, ops) && RowBytes(ChosenRow(t, CMPXCHG, ops), ops, 0) == [0x0F, 0xB1, 0x0B]
  {
    hide Shapes, Hash, Regular, FixedTables, Locatable, Encodes;
    var ops, rows := [MemOpnd(Size32, EBX, NoReg, 0, 0), RegOpnd(ECX), RegOpnd(EAX)], Compiled(CMPXCHG);
    RegularList(ops);
    forall i | 0 <= i < 3 ensures StrictFits(rows[2].opnds[i], ops[i]) {
    }
    assert !StrictFits(rows[0].opnds[0], ops[0]) && !StrictFits(rows[1].opnds[0], ops[0]);
    OnlyRowChosen(t, CMPXCHG, ops, 2);
  }

  /** Rows without written elements: SETZ AL gets /0, SHLD gets /r, and its immediate a field. */
  lemma SuppliedElements(t: Tables, stale: bits2)
    requires FixedTables(t)
    ensures var ops := [RegOpnd(Reg(GPReg, Size8, 0))];
            Locatable(t, SETZ, ops) && RowBytes(ChosenRow(t, SETZ, ops), ops, stale) == [0x0F, 0x94, 0xC0]
    ensures var ops := [RegOpnd(EAX), RegOpnd(ECX), RegOpnd(Reg(GPReg, Size8, 1))];
            Locatable(t, SHLD, ops) && RowBytes(ChosenRow(t, SHLD, ops), ops, stale) == [0x0F, 0xA5, 0xC8]
    ensures var ops := [RegOpnd(EAX), RegOpnd(ECX), ImmOpnd(Size8, 5)];
            Locatable(t, SHLD, ops) && RowBytes(ChosenRow(t, SHLD, ops), ops, stale) == [0x0F, 0xA4, 0xC8, 5]
  {
    SetzChosen(t, stale);
    ShldChosen(t, RegOpnd(Reg(GPReg, Size8, 1)), stale);
    ShldChosen(t, ImmOpnd(Size8, 5), stale);
  }

  lemma SetzChosen(t: Tables, stale: bits2)
    requires FixedTables(t)
    ensures var ops := [RegOpnd(Reg(GPReg, Size8, 0))];
            Locatable(t, SETZ, ops) && RowBytes(ChosenRow(t, SETZ, ops), ops, stale) == [0x0F, 0x94, 0xC0]
  {
    hide Shapes, Hash, Regular, FixedTables, Locatable, Encodes;
    var ops, rows := [RegOpnd(Reg(GPReg, Size8, 0))], Compiled(SETZ);
    RegularList(ops);
    assert StrictFits(rows[0].opnds[0], ops[0]);
    OnlyRowChosen(t, SETZ, ops, 0);
  }

  lemma ShldChosen(t: Tables, count: Operand, stale: bits2)
    requires FixedTables(t) && (count == RegOpnd(Reg(GPReg, Size8, 1)) || count == ImmOpnd(Size8, 5))
    ensures var ops := [RegOpnd(EAX), RegOpnd(ECX), count];
            && Locatable(t, SHLD, ops)
            && RowBytes(ChosenRow(t, SHLD, ops), ops, stale) ==
                 if count.ImmOpnd? then [0x0F, 0xA4, 0xC8, 5] else [0x0F, 0xA5, 0xC8]
  {
    hide Shapes, Hash, Regular, FixedTables, Locatable, Encodes;
    var ops, rows := [RegOpnd(EAX), RegOpnd(ECX), count], Compiled(SHLD);
    var k := if count.ImmOpnd? then 1 else 0;
    RegularList(ops);
    forall i | 0 <= i < 3 ensures StrictFits(rows[k].opnds[i], ops[i]) {
    }
    assert !StrictFits(rows[1 - k].opnds[2], ops[2]);
    OnlyRowChosen(t, SHLD, ops, k);
  }
}
