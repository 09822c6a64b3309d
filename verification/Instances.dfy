/**
 * The theorems on the tables of the excerpt: which rows lookup chooses, which instructions survive, and
 * the inputs on which a naive reading of the encoder's promises fails.
 */
module Instances {
  import opened Basics
  import opened X86
  import opened Rows
  import opened RowNotation
  import opened ModRM
  import opened OperandHash
  import opened TableBuilder
  import opened Encoder
  import opened Decoder
  import opened RoundTrip
  import opened Patch
  import opened Excerpt

  /** Compiling a row keeps what matching looks at. */
  lemma RowFields(t: Tables, mn: nat, i: nat)
    requires ExcerptTables(t) && 1 <= mn < MNEMONICS && i < |RowsOf(mn)|
    ensures |t.opcodes| == MNEMONICS && |t.opcodes[mn]| == |RowsOf(mn)|
    ensures var row, info := t.opcodes[mn][i], RowsOf(mn)[i];
            && row.opnds == info.opnds && row.roles == info.roles
            && row.decoderOnly == (info.platf in {Platform.Decoder, Decoder32, Decoder64})
            && (row.decoderOnly || (Hashable(row) && Described(row) && (Implicit(row) || Explicit(row))))
  {
    hide RowsOf, LeadAt, ExcerptTables, MasterRow, Parts, InRange, Searchable, LeadIs, Hashable, Described;
    Size(t);
    RowOf(t, mn);
  }

  /**
   * On the tables of the excerpt, for every mnemonic and every regular list of proper operands: lookup finds
   * a row exactly when some row for encoding matches at least loosely, strictly whenever it can, and the
   * operands are decodable unless the row found is exempt.
   */
  lemma ExcerptChoice(t: Tables, mn: nat, ops: seq<Operand>)
    requires ExcerptTables(t) && 1 <= mn < MNEMONICS
    requires Regular(Shapes(ops)) && Hash(Shapes(ops)) < HASH_MAX && AllProper(ops)
    ensures |t.maps| == |t.opcodes| == MNEMONICS && |t.maps[mn]| == HASH_MAX
    ensures var i := Select(t.opcodes[mn], t.maps[mn], ops);
            && (i.Some? <==> exists j :: 0 <= j < |t.opcodes[mn]| && Accepted(t.opcodes[mn][j], ops, false))
            && (i.Some? ==>
                  && i.value < |t.opcodes[mn]| && Accepted(t.opcodes[mn][i.value], ops, false)
                  && (StrictMatch(t.opcodes[mn][i.value], ops) <==>
                      exists j :: 0 <= j < |t.opcodes[mn]| && Usable(t.opcodes[mn][j], ops)))
            && (i.Some? && !Exempt(t, mn, i.value) ==> Decodable(t, mn, ops) && ChosenIndex(t, mn, ops) == i.value)
  {
    hide ExcerptTables, WellFormed, Covered, Decodable, Exempt, Shapes, Hash, Regular, StrictMatch,
      LooseMatch, AllProper;
    ExcerptCovered(t);
    ChoiceDecodable(t, mn, ops);
  }

  /** A list that some row takes as it is gets such a row. */
  lemma UsableChosen(t: Tables, mn: nat, ops: seq<Operand>, k: nat)
    requires ExcerptTables(t) && 1 <= mn < MNEMONICS && |t.opcodes| == MNEMONICS
    requires Regular(Shapes(ops)) && Hash(Shapes(ops)) < HASH_MAX && AllProper(ops)
    requires k < |t.opcodes[mn]| && Usable(t.opcodes[mn][k], ops)
    ensures Encodes(t, mn, ops) && Usable(ChosenRow(t, mn, ops), ops)
    ensures Decodable(t, mn, ops) || (mn == LEA && ChosenIndex(t, mn, ops) == 1)
  {
    hide ExcerptTables, Decodable, Shapes, Hash, Regular, StrictMatch, LooseMatch, AllProper, Select, Described,
      RowsOf, Hashable, Suits, LeadAt, Supplies;
    ExcerptChoice(t, mn, ops);
    StrictIsLoose(t.opcodes[mn][k], ops);
    var i := Select(t.opcodes[mn], t.maps[mn], ops).value;
    RowOf(t, mn);
    RowFields(t, mn, i);
    StrictIsLoose(t.opcodes[mn][i], ops);
    DescribedSupplies(t.opcodes[mn][i], ops);
    assert |ops| == |Shapes(ops)| <= 3 by { ShapeCount(ops); }
  }

  lemma ShapeCount(ops: seq<Operand>)
    requires Regular(Shapes(ops))
    ensures |ops| == |Shapes(ops)| <= 3
  {
  }

  lemma RegularPair(a: Operand, b: Operand)
    requires RegularShape(ShapeOf(a)) && RegularShape(ShapeOf(b))
    ensures Regular(Shapes([a, b])) && Hash(Shapes([a, b])) < HASH_MAX
    ensures Regular(Shapes([a])) && Hash(Shapes([a])) < HASH_MAX
  {
    HashInRange(Shapes([a, b]));
    HashInRange(Shapes([a]));
  }

  // ----- shifts by an immediate, although the same mnemonics also shift by CL -----

  predicate RegOrMem(a: Operand) {
    Proper(a) && (a.Kind() == GPReg || a.Kind() == Mem) && GpSize(a.Size())
  }

  function ShiftIndex(s: OpndSize): nat {
    if s == Size8 then 0 else if s == Size16 then 3 else 6
  }

  /** What lookup sees of the rows of a shift. */
  lemma ShiftDescs(d: bits3, i: nat)
    requires i < 9
    ensures i % 3 == 0 ==> ShiftRows(d)[i].platf == Platform.Decoder
    ensures i % 3 != 0 ==>
              var s := if i < 3 then Size8 else if i < 6 then Size16 else Size32;
              && ShiftRows(d)[i].platf == AnyPlatform && ShiftRows(d)[i].roles == [DU, U]
              && ShiftRows(d)[i].opnds == [RM(s), if i % 3 == 1 then CL else I(Size8), NO_DESC]
  {
    hide RM, I;
  }

  /** A shift with a matching row gets one that matches strictly and is decodable. */
  lemma ShiftChoice(t: Tables, mn: nat, ops: seq<Operand>, k: nat)
    requires ExcerptTables(t) && 1 <= mn < MNEMONICS && FamilyOf(mn) == ShiftFamily && AllProper(ops) && |ops| == 2
    requires RegularShape(ShapeOf(ops[0])) && RegularShape(ShapeOf(ops[1]))
    requires k < 9 && k % 3 != 0
    requires StrictFits(ShiftRows(Member(mn))[k].opnds[0], ops[0])
    requires StrictFits(ShiftRows(Member(mn))[k].opnds[1], ops[1])
    ensures Decodable(t, mn, ops) && StrictMatch(ChosenRow(t, mn, ops), ops)
    ensures var row := ChosenRow(t, mn, ops);
            && !row.decoderOnly && |row.roles| == 2 && (Implicit(row) || Explicit(row))
            && row.opnds[1] == if ops[1].Kind() == GPReg then CL else I(Size8)
  {
    hide ExcerptTables, ShiftRows, Shapes, Hash, Regular, Member, Hashable, Described, Distinguished, SearchableTable,
      Encodes, StrictMatch, LooseMatch, StrictFits, RM, AllProper, RowsOf;
    assert Proper(ops[1]) by { ProperAt(ops, 1); }
    assert mn != LEA && ops == [ops[0], ops[1]];
    RegularPair(ops[0], ops[1]);
    ShiftRowsOf(mn);
    ShiftDescs(Member(mn), k);
    RowFields(t, mn, k);
    PairMatch(t.opcodes[mn][k], ops);
    UsableChosen(t, mn, ops, k);
    var i := ChosenIndex(t, mn, ops);
    RowFields(t, mn, i);
    ShiftDescs(Member(mn), i);
    PairFits(t.opcodes[mn][i], ops);
    CountFits(ops[1]);
  }

  lemma ProperAt(ops: seq<Operand>, i: nat)
    requires AllProper(ops) && i < |ops|
    ensures Proper(ops[i])
  {
  }

  lemma ShiftRowsOf(mn: nat)
    requires 1 <= mn < MNEMONICS && FamilyOf(mn) == ShiftFamily
    ensures RowsOf(mn) == ShiftRows(Member(mn)) && |RowsOf(mn)| == 9
  {
    RowCount(mn);
  }

  lemma PairMatch(row: OpcodeDesc, ops: seq<Operand>)
    requires |ops| == |row.roles| == 2 && StrictFits(row.opnds[0], ops[0]) && StrictFits(row.opnds[1], ops[1])
    ensures StrictMatch(row, ops)
  {
  }

  lemma PairFits(row: OpcodeDesc, ops: seq<Operand>)
    requires StrictMatch(row, ops) && |ops| == 2
    ensures |row.roles| == 2 && StrictFits(row.opnds[1], ops[1])
  {
  }

  lemma CountFits(op: Operand)
    requires Proper(op)
    ensures StrictFits(CL, op) ==> op.Kind() == GPReg
    ensures StrictFits(I(Size8), op) ==> op.Kind() == Imm
  {
  }

  /** Every shift or rotation of a register or memory operand by an immediate is decoded again, operands and all. */
  lemma ShiftByImm(t: Tables, mn: nat, a: Operand, v: int)
    requires ExcerptTables(t) && 1 <= mn < MNEMONICS && FamilyOf(mn) == ShiftFamily && RegOrMem(a)
    ensures Patchable(t, mn, [a, ImmOpnd(Size8, v)])
    ensures StrictMatch(ChosenRow(t, mn, [a, ImmOpnd(Size8, v)]), [a, ImmOpnd(Size8, v)])
  {
    hide ExcerptTables, Decodable, ShiftRows, Member, StrictMatch, Described;
    var k := ShiftIndex(a.Size()) + 2;
    ShiftDescs(Member(mn), k);
    ShiftChoice(t, mn, [a, ImmOpnd(Size8, v)], k);
    assert Imm in I(Size8).kinds;
  }

  /**
   * Every shift or rotation by an 8-bit register gets the row for CL: lookup never compares the register with
   * the one the row fixes.  The bytes are those of the shift by CL, and the instruction is the one asked for
   * exactly when the register is CL and the other operand survives.
   */
  lemma ShiftByRegister(t: Tables, mn: nat, a: Operand, r: bits3, stale: bits2, code: Code, at: nat)
    requires ExcerptTables(t) && 1 <= mn < MNEMONICS && FamilyOf(mn) == ShiftFamily && RegOrMem(a)
    ensures var ops, byCl := [a, RegOpnd(Reg(GPReg, Size8, r))], [a, RegOpnd(CL.reg)];
            && Decodable(t, mn, ops) && Decodable(t, mn, byCl) && ChosenIndex(t, mn, ops) == ChosenIndex(t, mn, byCl)
            && RowBytes(ChosenRow(t, mn, ops), ops, stale) == RowBytes(ChosenRow(t, mn, byCl), byCl, stale)
            && (Holds(code, at, RowBytes(ChosenRow(t, mn, ops), ops, stale)) ==>
                  var row := ChosenRow(t, mn, ops);
                  && FirstInTable(t.opcodes, code, at, mn, ChosenIndex(t, mn, ops))
                  && RowLength(row, code, at) == |RowBytes(row, ops, stale)|
                  && Searchable(row) && RowAccepts(row, code, at)
                  && (Completed(row, RowOperands(row, code, at)) == ops <==>
                      r == CL.reg.index && Sound(a) && ScaleKept(a)))
  {
    hide ExcerptTables, ShiftRows, Member, StrictMatch, Described, Encodes, Shapes, Hash, LooseMatch, RowBytes,
      RowLength, RowAccepts, RowOperands, FirstInTable, Holds, Distinguished, SearchableTable, Searchable, Returned,
      Sound, ScaleKept, AllSurvive, FixedHold, PrefixEnd, RepeatsGroup, EncodedCount, Reported, Completed;
    var ops, byCl := [a, RegOpnd(Reg(GPReg, Size8, r))], [a, RegOpnd(CL.reg)];
    var k := ShiftIndex(a.Size()) + 1;
    ShiftDescs(Member(mn), k);
    ShiftChoice(t, mn, ops, k);
    ShiftChoice(t, mn, byCl, k);
    assert Shapes(ops) == Shapes(byCl) by { SameShapes(a, r); }
    SameChoice(t, mn, ops, byCl);
    var row := ChosenRow(t, mn, ops);
    ClEncodes(t, mn, ops);
    FixedLeaveNoTrace(row, ops, byCl, stale);
    if Holds(code, at, RowBytes(row, ops, stale)) {
      DecodableLocatable(t, mn, ops);
      EncodeDecode(t, mn, ops, stale, code, at);
      CompletedExact(row, ops, RowOperands(row, code, at));
      ClSurvives(row, a, r);
    }
  }

  lemma SameShapes(a: Operand, r: bits3)
    ensures Shapes([a, RegOpnd(Reg(GPReg, Size8, r))]) == Shapes([a, RegOpnd(CL.reg)])
  {
  }

  /** A shift by CL encodes its first operand only. */
  lemma ClEncodes(t: Tables, mn: nat, ops: seq<Operand>)
    requires Decodable(t, mn, ops) && |ops| == 2 && ChosenRow(t, mn, ops).opnds[1] == CL
    requires ExcerptTables(t) && 1 <= mn < MNEMONICS && FamilyOf(mn) == ShiftFamily
    requires !ChosenRow(t, mn, ops).decoderOnly
    ensures ChosenRow(t, mn, ops).firstOpnd == 0 && EncodedCount(ChosenRow(t, mn, ops)) == 1
    ensures |ChosenRow(t, mn, ops).roles| == 2
  {
    hide ExcerptTables, MasterRow, CompileRow, ShiftRows, Member, LeadAt, Suits, Distinguished, SearchableTable,
      Encodes;
    var i := ChosenIndex(t, mn, ops);
    RowCount(mn);
    Size(t);
    RowOf(t, mn);
    RowFields(t, mn, i);
    ShiftDescs(Member(mn), i);
    ClRowCompiles(Member(mn), i);
  }

  lemma ClRowCompiles(d: bits3, i: nat)
    requires i < 9
    ensures i % 3 == 1 ==>
              && MasterRow(ShiftRows(d)[i])
              && var row := CompileRow(ShiftRows(d)[i]);
                 row.firstOpnd == 0 && row.aux0 == SlashNum(d) && row.aux1 == NoAux
  {
    hide CompileRow, MasterRow;
    ClCompiles(false, 0xD2, d, Size8);
    ClCompiles(true, 0xD3, d, Size16);
    ClCompiles(false, 0xD3, d, Size32);
  }

  lemma ClSurvives(row: OpcodeDesc, a: Operand, r: bits3)
    requires StrictMatch(row, [a, RegOpnd(Reg(GPReg, Size8, r))]) && EncodedCount(row) == 1 && row.opnds[1] == CL
    ensures var ops := [a, RegOpnd(Reg(GPReg, Size8, r))];
            && (AllSurvive(row, ops[..1]) <==> Sound(a) && ScaleKept(a))
            && (FixedHold(row, ops) <==> r == CL.reg.index)
  {
    hide EncodedCount, Sound, ScaleKept;
    var ops := [a, RegOpnd(Reg(GPReg, Size8, r))];
    assert StrictFits(row.opnds[0], ops[0]) && ops[..1][0] == a;
    assert FixedHold(row, ops) <==> ops[1] == RegOpnd(row.opnds[1].reg);
  }

  lemma Gp32Fields(r: bits3)
    ensures ShapeOf(RegOpnd(GP32(r))) == Shape(GPReg, Size32) && Proper(RegOpnd(GP32(r)))
  {
  }

  /** LEA r32, m32 is decoded again, although the row after it has the same bytes. */
  lemma LeaDecodable(t: Tables, r: bits3, a: Operand)
    requires ExcerptTables(t) && a.MemOpnd? && Addressing(a) && a.memSize == Size32
    ensures Decodable(t, LEA, [RegOpnd(GP32(r)), a]) && ChosenIndex(t, LEA, [RegOpnd(GP32(r)), a]) == 0
  {
    hide ExcerptTables, Decodable, Shapes, Hash, Regular, Hashable, Addressing, Described, Encodes, GP32, StrictMatch;
    assert ShapeOf(RegOpnd(GP32(r))) == Shape(GPReg, Size32) && Proper(RegOpnd(GP32(r))) by { Gp32Fields(r); }
    var ops := [RegOpnd(GP32(r)), a];
    RegularPair(ops[0], a);
    LeaDescs(t);
    var rows := t.opcodes[LEA];
    PairMatch(rows[0], ops);
    UsableChosen(t, LEA, ops, 0);
    PairFits(ChosenRow(t, LEA, ops), ops);
  }

  /** What lookup sees of the rows of LEA. */
  lemma LeaDescs(t: Tables)
    requires ExcerptTables(t)
    ensures |t.opcodes| == MNEMONICS && |t.opcodes[LEA]| == 2
    ensures forall i :: 0 <= i < 2 ==>
              && t.opcodes[LEA][i].opnds == [R(Size32), M(if i == 0 then Size32 else Size64), NO_DESC]
              && t.opcodes[LEA][i].roles == [D, U] && !t.opcodes[LEA][i].decoderOnly
  {
    hide ExcerptTables, Hashable, Described;
    assert |RowsOf(LEA)| == 2;
    RowFields(t, LEA, 0);
    RowFields(t, LEA, 1);
  }

  // ----- the self-check on indirect jumps -----

  /**
   * JMP through memory: the operand is decoded as it was encoded exactly when its index is not ESP and its
   * scale is the one the decoder reports.
   */
  lemma JmpMemory(t: Tables, a: Operand, stale: bits2, code: Code, at: nat)
    requires ExcerptTables(t) && a.MemOpnd? && Addressing(a) && a.memSize == Size32
    ensures Decodable(t, JMP, [a])
    ensures Holds(code, at, RowBytes(ChosenRow(t, JMP, [a]), [a], stale)) ==>
              var row := ChosenRow(t, JMP, [a]);
              && FirstInTable(t.opcodes, code, at, JMP, ChosenIndex(t, JMP, [a]))
              && Searchable(row) && RowAccepts(row, code, at) && |RowOperands(row, code, at)| == 1
              && (RowOperands(row, code, at) == [a] <==> a.index != ESP && ScaleKept(a))
              && (a.index != ESP ==> RowOperands(row, code, at) == [Seen(a)])
  {
    hide ExcerptTables, Shapes, Hash, Regular, Hashable, Described, Distinguished, SearchableTable, Encodes, RowBytes,
      Holds, RowLength, RowOperands, RowAccepts, FirstInTable, PrefixEnd, RepeatsGroup, Seen, ScaleKept, Addressing,
      Searchable;
    var ops := [a];
    RegularPair(a, a);
    ExcerptChoice(t, JMP, ops);
    assert |RowsOf(JMP)| == 5;
    RowFields(t, JMP, 4);
    var row := t.opcodes[JMP][4];
    assert StrictFits(row.opnds[0], ops[0]);
    assert Usable(row, ops);
    StrictIsLoose(row, ops);
    var i := Select(t.opcodes[JMP], t.maps[JMP], ops).value;
    RowFields(t, JMP, i);
    JmpDescs(i);
    if Holds(code, at, RowBytes(ChosenRow(t, JMP, ops), ops, stale)) {
      PatchableDecode(t, JMP, ops, stale, code, at);
      StrictUnchanged(ChosenRow(t, JMP, ops), ops);
      var got := RowOperands(ChosenRow(t, JMP, ops), code, at);
      assert RecoveredAs(ops[0], got[0]);
    }
  }

  lemma JmpDescs(i: nat)
    requires i < |RowsOf(JMP)|
    ensures RowsOf(JMP)[i].opnds[1] == NO_DESC && RowsOf(JMP)[i].platf in {AnyPlatform, IA32}
  {
  }

  /**
   * The self-check fails on every jump through [ESP + disp], and on every one through an index with scale 0:
   * the encoder takes the operand, and the decoder reports scale 1.
   */
  lemma SelfCheckFails(t: Tables, a: Operand, stale: bits2, code: Code, at: nat)
    requires ExcerptTables(t) && Addressing(a) && a.memSize == Size32 && AssertsHold(a)
    requires a.scale == 0 && (a.base == ESP || !a.index.NoReg?)
    requires Encodes(t, JMP, [a]) && Holds(code, at, RowBytes(ChosenRow(t, JMP, [a]), [a], stale))
    ensures var row := ChosenRow(t, JMP, [a]);
            Searchable(row) && RowAccepts(row, code, at) && RowOperands(row, code, at) == [a.(scale := 1)] != [a]
  {
    hide ExcerptTables, Holds, RowBytes, Encodes, RowOperands, RowAccepts, FirstInTable;
    JmpMemory(t, a, stale, code, at);
  }

  /** For one: JMP [ESP + 4] comes back with scale 1. */
  lemma JmpEsp4(t: Tables, stale: bits2, code: Code, at: nat)
    requires ExcerptTables(t)
    ensures var a := MemOpnd(Size32, ESP, NoReg, 0, 4);
            && AssertsHold(a) && Decodable(t, JMP, [a])
            && (Holds(code, at, RowBytes(ChosenRow(t, JMP, [a]), [a], stale)) ==>
                  var row := ChosenRow(t, JMP, [a]);
                  && Searchable(row) && RowAccepts(row, code, at)
                  && RowOperands(row, code, at) == [MemOpnd(Size32, ESP, NoReg, 1, 4)])
  {
    hide ExcerptTables, Holds, RowBytes, Encodes, RowOperands, RowAccepts, FirstInTable, Searchable, SearchableTable,
      Explicit, Distinguished, LooseMatch, AllProper;
    var a := MemOpnd(Size32, ESP, NoReg, 0, 4);
    JmpMemory(t, a, stale, code, at);
    if Holds(code, at, RowBytes(ChosenRow(t, JMP, [a]), [a], stale)) {
      SelfCheckFails(t, a, stale, code, at);
    }
  }

  // ----- operands that match only loosely -----

  /** What lookup sees of the rows of MOV. */
  lemma MovForm(i: nat)
    requires i < 18
    ensures |MovRows()| == 18 && MovRows()[i].roles == [D, U] && (MovRows()[i].platf == Platform.Decoder <==> 12 <= i)
    ensures MovRows()[i].platf in {AnyPlatform, Platform.Decoder}
    ensures i < 12 ==>
              var s := if i % 3 == 0 then Size8 else if i % 3 == 1 then Size16 else Size32;
              MovRows()[i].opnds ==
                if i < 3 then [RM(s), R(s), NO_DESC] else if i < 6 then [R(s), RM(s), NO_DESC]
                else if i < 9 then [R(s), I(s), NO_DESC] else [RM(s), I(s), NO_DESC]
  {
    hide RM, R, I;
  }

  lemma MovRow(t: Tables, i: nat)
    requires ExcerptTables(t) && i < 18
    ensures |t.opcodes| == MNEMONICS && |t.opcodes[MOV]| == 18
    ensures var row := t.opcodes[MOV][i];
            && row.opnds == MovRows()[i].opnds && row.roles == [D, U] && (row.decoderOnly <==> 12 <= i)
            && (row.decoderOnly || (Hashable(row) && Explicit(row)))
  {
    hide ExcerptTables, MovRows, Hashable, Described;
    MovForm(i);
    assert i < 12 ==> MovRows()[i].opnds[1] != CL;
    assert RowsOf(MOV) == MovRows();
    RowFields(t, MOV, i);
  }

  const AH: RegName := Reg(GPReg, Size8, 4)
  const EAX: RegName := Reg(GPReg, Size32, 0)

  function EaxAh(): seq<Operand> { [RegOpnd(EAX), RegOpnd(AH)] }

  /** No row takes EAX and AH as they are, and 89 /r is the first whose destination is 32 bits wide. */
  lemma EaxAhRows(t: Tables, i: nat)
    requires ExcerptTables(t) && i < 18
    ensures |t.opcodes| == MNEMONICS && |t.opcodes[MOV]| == 18
    ensures !Usable(t.opcodes[MOV][i], EaxAh())
    ensures i < 2 ==> !Accepted(t.opcodes[MOV][i], EaxAh(), false)
    ensures i == 2 ==> Accepted(t.opcodes[MOV][i], EaxAh(), false)
  {
    hide ExcerptTables, MovRows, Hashable;
    MovRow(t, i);
    MovForm(i);
    var row, ops := t.opcodes[MOV][i], EaxAh();
    if i < 12 {
      assert StrictFits(row.opnds[0], ops[0]) && StrictFits(row.opnds[1], ops[1]) ==> false;
    }
    if i < 2 {
      assert row.roles[0].def && row.opnds[0].size != ops[0].Size();
    }
  }

  /** MOV EAX, AH is encoded as MOV EAX, ESP. */
  lemma MovEaxAh(t: Tables, stale: bits2, code: Code, at: nat)
    requires ExcerptTables(t)
    ensures Decodable(t, MOV, EaxAh()) && ChosenIndex(t, MOV, EaxAh()) == 2
    ensures RowBytes(ChosenRow(t, MOV, EaxAh()), EaxAh(), stale) == [0x89, 0xE0]
    ensures Holds(code, at, [0x89, 0xE0]) ==>
              var row := ChosenRow(t, MOV, EaxAh());
              && FirstInTable(t.opcodes, code, at, MOV, 2)
              && Searchable(row) && RowAccepts(row, code, at)
              && RowOperands(row, code, at) == [RegOpnd(EAX), RegOpnd(ESP)]
  {
    hide ExcerptTables, Shapes, Hash, Regular, Hashable, Described, Distinguished, SearchableTable, Holds, Slot,
      RowLength, RowOperands, RowAccepts, FirstInTable, PrefixEnd, RepeatsGroup, RowBytes, StrictMatch, Searchable;
    var ops := EaxAh();
    RegularPair(ops[0], ops[1]);
    ExcerptChoice(t, MOV, ops);
    var rows := t.opcodes[MOV];
    forall i | 0 <= i < 18
      ensures |rows| == 18 && !Usable(rows[i], ops)
      ensures i < 2 ==> !Accepted(rows[i], ops, false)
      ensures i == 2 ==> Accepted(rows[i], ops, false)
    {
      EaxAhRows(t, i);
    }
    assert Accepted(rows[2], ops, false);
    NoStrictRow(t, MOV, ops);
    MovRow(t, 2);
    MovForm(2);
    EaxAhBytes(t, stale);
    if Holds(code, at, [0x89, 0xE0]) {
      PatchableDecode(t, MOV, ops, stale, code, at);
      var got := RowOperands(rows[2], code, at);
      assert RecoveredAs(ResizeAll(rows[2], ops)[0], got[0]) && RecoveredAs(ResizeAll(rows[2], ops)[1], got[1]);
    }
  }

  /** Without a strict match the choice is left to the loose pass. */
  lemma NoStrictRow(t: Tables, mn: nat, ops: seq<Operand>)
    requires ExcerptTables(t) && 1 <= mn < MNEMONICS && Regular(Shapes(ops)) && Hash(Shapes(ops)) < HASH_MAX
    requires |t.opcodes| == MNEMONICS && forall i :: 0 <= i < |t.opcodes[mn]| ==> !Usable(t.opcodes[mn][i], ops)
    ensures |t.maps| == MNEMONICS && |t.maps[mn]| == HASH_MAX
    ensures Select(t.opcodes[mn], t.maps[mn], ops) == Scan(t.opcodes[mn], ops, false, 0)
  {
    hide Shapes, Hash, Regular, Hashable, Slot, StrictMatch, Compilable, MasterOf;
    ExcerptCovered(t);
    assert Indexed(t.maps[mn], t.opcodes[mn]);
    IndexAgrees(t.opcodes[mn], ops);
    SelectStrict(t.opcodes[mn], t.maps[mn], ops);
  }

  lemma EaxAhBytes(t: Tables, stale: bits2)
    requires ExcerptTables(t)
    ensures |t.opcodes| == MNEMONICS && |t.opcodes[MOV]| == 18 && Supplies(t.opcodes[MOV][2], EaxAh())
    ensures RowBytes(t.opcodes[MOV][2], EaxAh(), stale) == [0x89, 0xE0]
  {
    hide ExcerptTables, CompileRow, MasterRow, LeadAt, Suits, Described, Hashable;
    MovRow(t, 2);
    RowOf(t, MOV);
    SlashCompiles(false, 0x89, Size32, true, [D, U]);
    assert RowsOf(MOV)[2] == SlashRow(false, 0x89, Size32, true, [D, U]);
  }

  // ----- short forms -----

  /** MOV of a 32-bit immediate to a 32-bit register. */
  function MovOps(r: bits3, v: int): seq<Operand> {
    [RegOpnd(GP32(r)), ImmOpnd(Size32, v)]
  }

  /** Only the 32-bit B8+r row has no r/m operand and takes these operands. */
  lemma OnlyShortRow(t: Tables, i: nat, r: bits3, v: int)
    requires ExcerptTables(t) && i < 18
    ensures |t.opcodes| == MNEMONICS && |t.opcodes[MOV]| == 18
    ensures UsableShort(t.opcodes[MOV][i], MovOps(r, v)) <==> i == 8
  {
    hide ExcerptTables, MovRows, Hashable;
    MovRow(t, i);
    MovForm(i);
    var row, ops := t.opcodes[MOV][i], MovOps(r, v);
    if i < 12 {
      assert Masked(row.opnds[0]) <==> i < 3 || 9 <= i;
      assert Masked(row.opnds[1]) <==> 3 <= i < 6;
      assert Split(row).None? <==> 6 <= i < 9;
      if 6 <= i < 9 {
        assert StrictFits(row.opnds[0], ops[0]) <==> i == 8;
        assert StrictFits(row.opnds[1], ops[1]) <==> i == 8;
      }
    }
  }

  lemma ShortIsUsable(row: OpcodeDesc, ops: seq<Operand>)
    requires UsableShort(row, ops)
    ensures Usable(row, ops)
  {
  }

  /**
   * MOV r32, imm32 takes the short form: of the rows B8+r and C7 /0 that both match, the table always
   * selects the first, and the instruction is the opcode byte followed by the immediate.
   */
  lemma MovShortForm(t: Tables, r: bits3, v: int, stale: bits2)
    requires ExcerptTables(t)
    ensures Decodable(t, MOV, MovOps(r, v)) && ChosenIndex(t, MOV, MovOps(r, v)) == 8
    ensures RowBytes(ChosenRow(t, MOV, MovOps(r, v)), MovOps(r, v), stale) == [0xB8 + r] + LittleEndian(W4, v)
  {
    hide ExcerptTables, Shapes, Hash, Regular, Hashable, Decodable, RowBytes, LittleEndian, StrictMatch, LooseMatch,
      UsableShort, Usable, Scan, Slot, Supplies, MovRows;
    var ops := MovOps(r, v);
    RegularPair(ops[0], ops[1]);
    ExcerptChoice(t, MOV, ops);
    var rows := t.opcodes[MOV];
    forall i | 0 <= i < 18 ensures |rows| == 18 && (UsableShort(rows[i], ops) <==> i == 8) {
      OnlyShortRow(t, i, r, v);
    }
    MovRow(t, 8);
    ShortIsUsable(rows[8], ops);
    assert Usable(rows[8], ops);
    ExcerptCovered(t);
    ShortFormChosen(rows, ops);
    assert Indexed(t.maps[MOV], rows);
    MovForm(8);
    MovBytes(t, r, v, stale);
  }

  lemma MovBytes(t: Tables, r: bits3, v: int, stale: bits2)
    requires ExcerptTables(t)
    ensures |t.opcodes| == MNEMONICS && |t.opcodes[MOV]| == 18 && Supplies(t.opcodes[MOV][8], MovOps(r, v))
    ensures RowBytes(t.opcodes[MOV][8], MovOps(r, v), stale) == [0xB8 + r] + LittleEndian(W4, v)
  {
    hide ExcerptTables, CompileRow, MasterRow, LeadAt, Suits, LittleEndian, Described, Hashable;
    MovRow(t, 8);
    RowOf(t, MOV);
    PlusCompiles(false, 0xB8, W4);
    assert RowsOf(MOV)[8] == PlusRow(false, 0xB8, W4);
  }

  // ----- memory halves meet free slots -----

  datatype Tag = NoTag | OnlyReg | OnlyImm | RegMem

  function TagOf(d: OpndDesc): Tag {
    if d.kinds == {GPReg} then OnlyReg else if d.kinds == {Imm} then OnlyImm
    else if d.kinds == {GPReg, Mem} then RegMem else NoTag
  }

  /** The two rows describe different operands at position p. */
  predicate Unlike(a: seq<OpndDesc>, b: seq<OpndDesc>, p: nat)
    requires p < |a| && p < |b|
  {
    a[p].size != b[p].size || TagOf(a[p]) != TagOf(b[p])
  }

  /** A row takes the memory form of no row that describes different operands. */
  lemma UnlikeAvoids(a: OpcodeDesc, b: OpcodeDesc, p: nat)
    requires Hashable(b) && Split(b).Some? && Hashable(a) && |a.roles| == |b.roles| && p < |b.roles|
    requires forall q :: 0 <= q < |b.roles| ==> TagOf(a.opnds[q]) != NoTag && TagOf(b.opnds[q]) != NoTag
    requires Unlike(a.opnds, b.opnds, p)
    ensures Avoids(a, MemHalf(b))
  {
    hide HashableDesc;
    var k, s := Split(b).value, MemHalf(b);
    assert s[k] == Shape(Mem, b.opnds[k].size);
    if a.opnds[p].size != b.opnds[p].size {
      assert !ShapeFits(a.opnds[p], s[p]);
    } else if p == k || TagOf(a.opnds[p]) == RegMem {
      assert !Masked(a.opnds[k]);
      assert !ShapeFits(a.opnds[k], s[k]);
    } else {
      assert !Masked(b.opnds[p]);
      assert !ShapeFits(a.opnds[p], s[p]);
    }
  }

  /** What a row for encoding describes: the number of operands, and tag and size of the first two. */
  datatype Form = Form(n: nat, t0: Tag, s0: OpndSize, t1: Tag, s1: OpndSize)

  function Gp(k: nat): OpndSize {
    if k == 0 then Size8 else if k == 1 then Size16 else Size32
  }

  function One(t: Tag, s: OpndSize): Option<Form> { Some(Form(1, t, s, NoTag, NullSize)) }

  function Two(t0: Tag, s0: OpndSize, t1: Tag, s1: OpndSize): Option<Form> { Some(Form(2, t0, s0, t1, s1)) }

  /** The rows of each family; none for rows that are for decoding only. */
  function FormAt(f: Family, i: nat): Option<Form> {
    match f
    case AluFamily =>
      if i < 3 then None
      else if i < 6 then Two(RegMem, Gp(i - 3), OnlyImm, Gp(i - 3))
      else if i < 8 then Two(RegMem, Gp(i - 5), OnlyImm, Size8)
      else if i < 11 then Two(RegMem, Gp(i - 8), OnlyReg, Gp(i - 8))
      else Two(OnlyReg, Gp(i - 11), RegMem, Gp(i - 11))
    case JccFamily => One(OnlyImm, Gp(i))
    case JmpFamily => if i < 3 then One(OnlyImm, Gp(i)) else One(RegMem, Gp(i - 2))
    case MovFamily =>
      if i < 3 then Two(RegMem, Gp(i), OnlyReg, Gp(i))
      else if i < 6 then Two(OnlyReg, Gp(i - 3), RegMem, Gp(i - 3))
      else if i < 9 then Two(OnlyReg, Gp(i - 6), OnlyImm, Gp(i - 6))
      else if i < 12 then Two(RegMem, Gp(i - 9), OnlyImm, Gp(i - 9))
      else None
    case ShiftFamily =>
      if i % 3 == 0 then None else Two(RegMem, Gp(i / 3), if i % 3 == 1 then OnlyReg else OnlyImm, Size8)
    case LeaFamily => None
  }

  predicate FormIs(info: OpcodeInfo, f: Option<Form>) {
    && |info.opnds| == 3
    && match f
       case None => info.platf == Platform.Decoder
       case Some(f) =>
         && info.platf in {AnyPlatform, IA32} && 1 <= |info.roles| == f.n <= 2
         && TagOf(info.opnds[0]) == f.t0 && info.opnds[0].size == f.s0
         && (f.n == 2 ==> TagOf(info.opnds[1]) == f.t1 && info.opnds[1].size == f.s1)
  }

  lemma Tags(s: OpndSize)
    ensures TagOf(RM(s)) == RegMem && TagOf(R(s)) == OnlyReg && TagOf(I(s)) == OnlyImm && TagOf(CL) == OnlyReg
  {
    assert Mem in RM(s).kinds && Imm in I(s).kinds && GPReg in R(s).kinds;
  }

  lemma AllTags()
    ensures forall s :: TagOf(RM(s)) == RegMem && RM(s).size == s
    ensures forall s :: TagOf(R(s)) == OnlyReg && R(s).size == s
    ensures forall s :: TagOf(I(s)) == OnlyImm && I(s).size == s
    ensures TagOf(CL) == OnlyReg
  {
    forall s: OpndSize
      ensures TagOf(RM(s)) == RegMem && TagOf(R(s)) == OnlyReg && TagOf(I(s)) == OnlyImm && TagOf(CL) == OnlyReg
    {
      Tags(s);
    }
  }

  lemma AluForms(e: bits3, i: nat)
    requires i < 14
    ensures FormIs(AluRows(e)[i], FormAt(AluFamily, i))
  {
    AllTags();
    hide TagOf, RM, R, I;
  }

  lemma JumpForms(cc: condition, i: nat)
    ensures i < 3 ==> FormIs(Jcc(cc)[i], FormAt(JccFamily, i))
    ensures i < 5 ==> FormIs(JmpRows()[i], FormAt(JmpFamily, i))
  {
    AllTags();
    hide TagOf, RM, R, I;
  }

  lemma MovForms(i: nat)
    requires i < 18
    ensures FormIs(MovRows()[i], FormAt(MovFamily, i))
  {
    AllTags();
    hide TagOf, RM, R, I;
    MovForm(i);
  }

  lemma ShiftForms(d: bits3, i: nat)
    requires i < 9
    ensures FormIs(ShiftRows(d)[i], FormAt(ShiftFamily, i))
  {
    AllTags();
    hide TagOf, RM, R, I;
  }

  lemma RowForms(mn: nat, i: nat)
    requires 1 <= mn < MNEMONICS && mn != LEA && i < |RowsOf(mn)|
    ensures FormIs(RowsOf(mn)[i], FormAt(FamilyOf(mn), i))
  {
    hide FormIs, FormAt, Member;
    RowCount(mn);
    match FamilyOf(mn)
    case AluFamily => AluForms(Member(mn), i);
    case JccFamily => JumpForms(Member(mn), i);
    case JmpFamily => JumpForms(0, i);
    case MovFamily => MovForms(i);
    case ShiftFamily => ShiftForms(Member(mn), i);
  }

  /** The rows for encoding of a mnemonic all describe different operands. */
  lemma FormsDiffer(mn: nat, i: nat, j: nat)
    requires 1 <= mn < MNEMONICS && mn != LEA && j < i < |RowsOf(mn)|
    ensures var f, g := FormAt(FamilyOf(mn), i), FormAt(FamilyOf(mn), j);
            f.Some? && g.Some? ==>
              f.value.n == g.value.n && ((f.value.t0, f.value.s0) != (g.value.t0, g.value.s0) ||
                                         (f.value.n == 2 && (f.value.t1, f.value.s1) != (g.value.t1, g.value.s1)))
  {
    hide Member, AluRows, Jcc, JmpRows, LeaRows, MovRows, ShiftRows;
    RowCount(mn);
  }

  lemma FormAvoids(t: Tables, mn: nat, i: nat, j: nat)
    requires ExcerptTables(t) && 1 <= mn < MNEMONICS && mn != LEA && j < i < |RowsOf(mn)|
    requires |t.opcodes| == MNEMONICS && |t.opcodes[mn]| == |RowsOf(mn)|
    requires !t.opcodes[mn][i].decoderOnly && Split(t.opcodes[mn][i]).Some?
    ensures Avoids(t.opcodes[mn][j], MemHalf(t.opcodes[mn][i]))
  {
    hide ExcerptTables, RowsOf, FormAt, Hashable, Split, TagOf, FamilyOf;
    RowFields(t, mn, i);
    RowFields(t, mn, j);
    RowForms(mn, i);
    RowForms(mn, j);
    FormsDiffer(mn, i, j);
    var a, b := t.opcodes[mn][j], t.opcodes[mn][i];
    if !a.decoderOnly {
      TagsPresent(mn, i);
      TagsPresent(mn, j);
      UnlikeAvoids(a, b, if Unlike(a.opnds, b.opnds, 0) then 0 else 1);
    }
  }

  lemma TagsPresent(mn: nat, i: nat)
    requires 1 <= mn < MNEMONICS
    ensures var f := FormAt(FamilyOf(mn), i);
            f.Some? ==> f.value.t0 != NoTag && (f.value.n == 2 ==> f.value.t1 != NoTag)
  {
  }

  /**
   * The compiler's assertion that a memory half meets a free slot never fails on the rows of the excerpt, so
   * that the last row without an r/m operand wins, and the first with one otherwise.
   */
  lemma ExcerptSlotsFree(t: Tables, mn: nat)
    requires ExcerptTables(t) && 1 <= mn < MNEMONICS
    ensures |t.opcodes| == MNEMONICS && MemSlotsFree(t.opcodes[mn])
  {
    hide ExcerptTables, Hashable, Split, Avoids, MemSlotsFree;
    ExcerptCovered(t);
    var rows := t.opcodes[mn];
    forall i | 0 <= i < |rows| ensures EarlierAvoid(rows, i) {
      if mn == LEA {
        LeaUnmasked(t, i);
      } else if !rows[i].decoderOnly && Split(rows[i]).Some? {
        forall j | 0 <= j < i ensures Avoids(rows[j], MemHalf(rows[i])) {
          RowOf(t, mn);
          FormAvoids(t, mn, i, j);
        }
      }
    }
    MemSlotsFreeExact(rows);
  }

  lemma LeaUnmasked(t: Tables, i: nat)
    requires ExcerptTables(t) && |t.opcodes| == MNEMONICS && i < |t.opcodes[LEA]|
    ensures Split(t.opcodes[LEA][i]).None?
  {
    hide ExcerptTables, Hashable;
    assert |RowsOf(LEA)| == 2;
    RowFields(t, LEA, 0);
    RowFields(t, LEA, i);
  }
}
