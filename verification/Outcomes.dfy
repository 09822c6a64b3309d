/**
 * What every instruction of the excerpt decodes to, and that every one of them that ends in an immediate can
 * be patched.
 */
module Outcomes {
  import opened Basics
  import opened X86
  import opened Rows
  import opened RowNotation
  import opened ModRM
  import opened OperandHash
  import opened TableBuilder
  import opened Encoder
  import opened Decoder
  import opened RoundTrip
  import opened Patch
  import opened Excerpt
  import opened Instances

  // ----- every instruction -----

  /** The row an instruction is found by: the second row of LEA is hidden by the first. */
  function FoundAs(mn: nat, i: nat): nat {
    if mn == LEA && i == 1 then 0 else i
  }

  /** The two rows of LEA write the same bytes and take the same operands, if only loosely. */
  lemma LeaRowsAlike(t: Tables, ops: seq<Operand>, stale: bits2)
    requires ExcerptTables(t)
    ensures |t.opcodes| == MNEMONICS && |t.opcodes[LEA]| == 2
    ensures Described(t.opcodes[LEA][0]) && Distinguished(t.opcodes, LEA, 0)
    ensures LooseMatch(t.opcodes[LEA][1], ops) ==>
              && LooseMatch(t.opcodes[LEA][0], ops)
              && Supplies(t.opcodes[LEA][0], ops) && Supplies(t.opcodes[LEA][1], ops)
              && RowBytes(t.opcodes[LEA][1], ops, stale) == RowBytes(t.opcodes[LEA][0], ops, stale)
  {
    hide ExcerptTables, CompileRow, MasterRow, LeadAt, Suits, Described, Hashable, Distinguished, RmBytes;
    Size(t);
    RowOf(t, LEA);
    RowFields(t, LEA, 0);
    RowDistinguished(t, LEA, 0);
    LeaCompiles(Size32);
    LeaCompiles(Size64);
    assert t.opcodes[LEA][0] == CompileRow(LeaRow(Size32)) && t.opcodes[LEA][1] == CompileRow(LeaRow(Size64));
  }

  /**
   * What decoding gives for every mnemonic and every regular list of proper operands that the encoder takes:
   * the same mnemonic and length, the row that was chosen (or the other one of LEA), and the operands that
   * row encodes in its sizes.  The instruction is the one asked for exactly when those operands survive in
   * that row and the rest are the registers it fixes.
   */
  lemma ExcerptDecode(t: Tables, mn: nat, ops: seq<Operand>, stale: bits2, code: Code, at: nat)
    requires ExcerptTables(t) && 1 <= mn < MNEMONICS
    requires Regular(Shapes(ops)) && Hash(Shapes(ops)) < HASH_MAX && AllProper(ops) && Encodes(t, mn, ops)
    requires Holds(code, at, RowBytes(ChosenRow(t, mn, ops), ops, stale))
    ensures var j := FoundAs(mn, ChosenIndex(t, mn, ops));
            && j < |t.opcodes[mn]| && PrefixEnd(code, at) == at && !RepeatsGroup(code, at)
            && FirstInTable(t.opcodes, code, at, mn, j)
            && var row := t.opcodes[mn][j];
               && RowLength(row, code, at) == |RowBytes(ChosenRow(t, mn, ops), ops, stale)|
               && Searchable(row) && RowAccepts(row, code, at)
               && EncodedCount(row) <= |ops| == |row.roles|
               && Returned(row, ops[..EncodedCount(row)], RowOperands(row, code, at))
               && (Completed(row, RowOperands(row, code, at)) == ops <==>
                   AllSurvive(row, ops[..EncodedCount(row)]) && FixedHold(row, ops))
  {
    hide ExcerptTables, Shapes, Hash, Regular, Described, Distinguished, SearchableTable, LooseMatch, StrictMatch,
      AllProper, Holds, RowBytes, RowLength, RowOperands, RowAccepts, FirstInTable, PrefixEnd, RepeatsGroup, Returned,
      Searchable, EncodedCount, Reported, Completed, AllSurvive, FixedHold, Legible;
    ExcerptChoice(t, mn, ops);
    var i := ChosenIndex(t, mn, ops);
    var j := FoundAs(mn, i);
    var row := t.opcodes[mn][j];
    if mn == LEA && i == 1 {
      LeaRowsAlike(t, ops, stale);
      LooseRoundTrip(row, ops, stale, code, at);
      FoundFirst(t.opcodes, LEA, 0, code, at);
      DescribedSearchable(row);
    } else {
      DecodableLocatable(t, mn, ops);
      EncodeDecode(t, mn, ops, stale, code, at);
    }
    EncodedWithin(row, ops);
    CompletedExact(row, ops, RowOperands(row, code, at));
  }

  lemma DescribedSearchable(row: OpcodeDesc)
    requires Described(row)
    ensures Searchable(row)
  {
  }

  /** LEA r32, m64 decodes as LEA r32, m32: the same length, and the address in the smaller size. */
  lemma LeaWideMemory(t: Tables, r: bits3, a: Operand, stale: bits2, code: Code, at: nat)
    requires ExcerptTables(t) && a.MemOpnd? && Addressing(a) && a.memSize == Size64
    ensures var ops := [RegOpnd(GP32(r)), a];
            && Encodes(t, LEA, ops) && ChosenIndex(t, LEA, ops) == 1
            && (Holds(code, at, RowBytes(ChosenRow(t, LEA, ops), ops, stale)) ==>
                  && FirstInTable(t.opcodes, code, at, LEA, 0)
                  && var row := t.opcodes[LEA][0];
                     && RowLength(row, code, at) == |RowBytes(ChosenRow(t, LEA, ops), ops, stale)|
                     && Searchable(row) && RowAccepts(row, code, at) && |RowOperands(row, code, at)| == 2
                     && RowOperands(row, code, at) != ops
                     && (a.index != ESP ==>
                           RowOperands(row, code, at) == [RegOpnd(GP32(r)), Seen(a.(memSize := Size32))]))
  {
    hide ExcerptTables, Shapes, Hash, Regular, Described, Distinguished, SearchableTable, StrictMatch, Hashable,
      Holds, RowBytes, RowLength, RowOperands, RowAccepts, FirstInTable, PrefixEnd, RepeatsGroup, Seen, Addressing,
      Searchable, Completed, FixedHold, AllSurvive, Returned, EncodedCount, Encodes, Select;
    var ops := [RegOpnd(GP32(r)), a];
    LeaWideChoice(t, r, a);
    if Holds(code, at, RowBytes(ChosenRow(t, LEA, ops), ops, stale)) {
      RegularPair(ops[0], a);
      ExcerptDecode(t, LEA, ops, stale, code, at);
      RowFields(t, LEA, 0);
      LeaEncodes(t);
      assert ops[..2] == ops;
      LeaReturned(t.opcodes[LEA][0], r, a, RowOperands(t.opcodes[LEA][0], code, at));
    }
  }

  lemma LeaReturned(row: OpcodeDesc, r: bits3, a: Operand, got: seq<Operand>)
    requires row.opnds == [R(Size32), M(Size32), NO_DESC] && a.MemOpnd? && a.memSize == Size64
    requires Returned(row, [RegOpnd(GP32(r)), a], got)
    ensures |got| == 2 && got != [RegOpnd(GP32(r)), a]
    ensures a.index != ESP ==> got == [RegOpnd(GP32(r)), Seen(a.(memSize := Size32))]
  {
    hide ScaleKept;
    var ops' := ResizeAll(row, [RegOpnd(GP32(r)), a]);
    assert ops'[1] == a.(memSize := Size32) && ops'[0] == RegOpnd(GP32(r));
    assert RecoveredAs(ops'[0], got[0]) && RecoveredAs(ops'[1], got[1]);
  }

  lemma LeaEncodes(t: Tables)
    requires ExcerptTables(t)
    ensures |t.opcodes| == MNEMONICS && |t.opcodes[LEA]| == 2 && EncodedCount(t.opcodes[LEA][0]) == 2
    ensures t.opcodes[LEA][0].opnds == [R(Size32), M(Size32), NO_DESC]
  {
    hide ExcerptTables, CompileRow, MasterRow, LeadAt, Suits;
    Size(t);
    RowOf(t, LEA);
    LeaCompiles(Size32);
    assert t.opcodes[LEA][0] == CompileRow(LeaRow(Size32));
  }

  lemma LeaWideChoice(t: Tables, r: bits3, a: Operand)
    requires ExcerptTables(t) && a.MemOpnd? && Addressing(a) && a.memSize == Size64
    ensures Encodes(t, LEA, [RegOpnd(GP32(r)), a]) && ChosenIndex(t, LEA, [RegOpnd(GP32(r)), a]) == 1
  {
    hide ExcerptTables, Decodable, Shapes, Hash, Regular, Hashable, Addressing, Described, Encodes, GP32, StrictMatch;
    assert ShapeOf(RegOpnd(GP32(r))) == Shape(GPReg, Size32) && Proper(RegOpnd(GP32(r))) by { Gp32Fields(r); }
    var ops := [RegOpnd(GP32(r)), a];
    RegularPair(ops[0], a);
    LeaDescs(t);
    PairMatch(t.opcodes[LEA][1], ops);
    UsableChosen(t, LEA, ops, 1);
    PairFits(ChosenRow(t, LEA, ops), ops);
  }

  // ----- SHL EAX, BL -----

  const BL: RegName := Reg(GPReg, Size8, 3)

  function EaxBl(): seq<Operand> { [RegOpnd(EAX), RegOpnd(BL)] }

  /** SHL EAX, BL is encoded as SHL EAX, CL. */
  lemma ShlEaxBl(t: Tables, stale: bits2, code: Code, at: nat)
    requires ExcerptTables(t)
    ensures Decodable(t, SAL, EaxBl()) && RowBytes(ChosenRow(t, SAL, EaxBl()), EaxBl(), stale) == [0xD3, 0xE0]
    ensures Holds(code, at, [0xD3, 0xE0]) ==>
              var row := ChosenRow(t, SAL, EaxBl());
              && FirstInTable(t.opcodes, code, at, SAL, ChosenIndex(t, SAL, EaxBl()))
              && Searchable(row) && RowAccepts(row, code, at)
              && Completed(row, RowOperands(row, code, at)) == [RegOpnd(EAX), RegOpnd(CL.reg)] != EaxBl()
  {
    hide ExcerptTables, Decodable, RowBytes, RowLength, RowOperands, RowAccepts, FirstInTable, Holds, Searchable,
      Completed, FixedHold, AllSurvive;
    var byCl := [RegOpnd(EAX), RegOpnd(CL.reg)];
    ShiftByRegister(t, SAL, RegOpnd(EAX), BL.index, stale, code, at);
    ShiftByRegister(t, SAL, RegOpnd(EAX), CL.reg.index, stale, code, at);
    ShlEaxBlBytes(t, stale);
  }

  lemma ShlEaxBlBytes(t: Tables, stale: bits2)
    requires ExcerptTables(t) && Decodable(t, SAL, EaxBl())
    ensures RowBytes(ChosenRow(t, SAL, EaxBl()), EaxBl(), stale) == [0xD3, 0xE0]
  {
    hide ExcerptTables, MasterRow, CompileRow, LeadAt, Suits, Distinguished, SearchableTable, Encodes, Described;
    var i := ChosenIndex(t, SAL, EaxBl());
    var row := ChosenRow(t, SAL, EaxBl());
    RowCount(SAL);
    Size(t);
    RowOf(t, SAL);
    RowFields(t, SAL, i);
    ShiftDescs(4, i);
    assert KindFits(row.opnds[1], EaxBl()[1]) && row.opnds[0].size == Size32;
    ClCompiles(false, 0xD3, 4, Size32);
    assert i == 7;
    assert RowsOf(SAL)[7] == ClRow(false, 0xD3, 4, Size32);
  }

  // ----- every instruction that ends in an immediate can be patched -----

  predicate EndsInImm(ops: seq<Operand>) { ops != [] && ops[|ops| - 1].ImmOpnd? }

  /** What a tag says about the operands that fit. */
  lemma TagKind(d: OpndDesc, op: Operand)
    requires StrictFits(d, op) && op.Kind() != NullKind && TagOf(d) != NoTag
    ensures op.Size() == d.size
    ensures TagOf(d) == OnlyImm <==> op.Kind() == Imm
    ensures op.Kind() == Mem ==> TagOf(d) == RegMem
  {
  }

  /** Rows that take the same list describe operands of the same sizes, and an immediate at its end. */
  lemma BothFit(a: OpcodeDesc, b: OpcodeDesc, ops: seq<Operand>)
    requires StrictMatch(a, ops) && StrictMatch(b, ops) && EndsInImm(ops)
    requires forall k :: 0 <= k < |ops| ==>
               ops[k].Kind() != NullKind && TagOf(a.opnds[k]) != NoTag && TagOf(b.opnds[k]) != NoTag
    ensures forall k :: 0 <= k < |ops| ==> a.opnds[k].size == b.opnds[k].size
    ensures TagOf(a.opnds[|ops| - 1]) == TagOf(b.opnds[|ops| - 1]) == OnlyImm
  {
    hide TagOf;
    forall k | 0 <= k < |ops|
      ensures a.opnds[k].size == b.opnds[k].size
      ensures ops[k].ImmOpnd? ==> TagOf(a.opnds[k]) == TagOf(b.opnds[k]) == OnlyImm
    {
      TagKind(a.opnds[k], ops[k]);
      TagKind(b.opnds[k], ops[k]);
    }
  }

  /** Two rows that take the same list with an immediate at its end are the two forms of MOV. */
  lemma TwoRows(t: Tables, mn: nat, i: nat, j: nat, ops: seq<Operand>)
    requires ExcerptTables(t) && 1 <= mn < MNEMONICS && |t.opcodes| == MNEMONICS
    requires j < i < |t.opcodes[mn]| && Usable(t.opcodes[mn][i], ops) && Usable(t.opcodes[mn][j], ops)
    requires EndsInImm(ops) && forall k :: 0 <= k < |ops| ==> ops[k].Kind() != NullKind
    ensures mn == MOV && 6 <= j < 9 && i == j + 3
  {
    hide ExcerptTables, Hashable, Described, TagOf, RowsOf, FormAt, StrictMatch, LooseMatch, Suits, FamilyOf, LeadAt;
    StrictIsLoose(t.opcodes[mn][i], ops);
    StrictIsLoose(t.opcodes[mn][j], ops);
    LooseCount(t.opcodes[mn][i], ops);
    LooseCount(t.opcodes[mn][j], ops);
    RowOf(t, mn);
    RowFields(t, mn, i);
    RowFields(t, mn, j);
    if mn == LEA {
      NoImmInLea(t, i, ops);
    } else {
      RowForms(mn, i);
      RowForms(mn, j);
      TagsPresent(mn, i);
      TagsPresent(mn, j);
      FormsDiffer(mn, i, j);
      BothFit(t.opcodes[mn][j], t.opcodes[mn][i], ops);
      TwoForms(mn, i, j);
    }
  }

  lemma NoImmInLea(t: Tables, i: nat, ops: seq<Operand>)
    requires ExcerptTables(t) && |t.opcodes| == MNEMONICS && i < |t.opcodes[LEA]|
    ensures !(EndsInImm(ops) && LooseMatch(t.opcodes[LEA][i], ops))
  {
    hide ExcerptTables, Hashable, Described;
    assert |RowsOf(LEA)| == 2;
    RowFields(t, LEA, 0);
    RowFields(t, LEA, i);
  }

  /** Forms of a mnemonic that agree but for the location of the first operand. */
  lemma TwoForms(mn: nat, i: nat, j: nat)
    requires 1 <= mn < MNEMONICS && mn != LEA && j < i < |RowsOf(mn)|
    requires FormAt(FamilyOf(mn), i).Some? && FormAt(FamilyOf(mn), j).Some?
    requires var f, g := FormAt(FamilyOf(mn), i).value, FormAt(FamilyOf(mn), j).value;
             f.n == g.n == 2 && f.s0 == g.s0 && f.t1 == g.t1 == OnlyImm && f.s1 == g.s1 && f.t0 != g.t0
    ensures mn == MOV && 6 <= j < 9 && i == j + 3
  {
    hide Member, AluRows, Jcc, JmpRows, LeaRows, MovRows, ShiftRows;
    RowCount(mn);
  }

  /** Operands that fit a row for encoding are regular. */
  lemma FitRegular(row: OpcodeDesc, ops: seq<Operand>)
    requires Hashable(row) && StrictMatch(row, ops) && 1 <= |ops| <= 2
    requires forall k :: 0 <= k < |ops| ==> ops[k].Kind() != NullKind
    ensures Regular(Shapes(ops)) && Hash(Shapes(ops)) < HASH_MAX
  {
    hide HashableDesc, StrictFits, Regular, Shapes, Hash;
    forall k | 0 <= k < |ops| ensures RegularShape(ShapeOf(ops[k])) {
      FitRegularShape(row.opnds[k], ops[k]);
    }
    if |ops| == 1 {
      assert ops == [ops[0]];
      RegularPair(ops[0], ops[0]);
    } else {
      assert ops == [ops[0], ops[1]];
      RegularPair(ops[0], ops[1]);
    }
  }

  lemma FitRegularShape(d: OpndDesc, op: Operand)
    requires HashableDesc(d) && StrictFits(d, op) && op.Kind() != NullKind
    ensures RegularShape(ShapeOf(op))
  {
    if Masked(d) {
      var k := MaskedKinds(d);
    } else {
      assert d.kinds == {MaskKind(d.kinds)};
    }
  }

  lemma KindsNotNull(row: OpcodeDesc, ops: seq<Operand>)
    requires AllProper(ops) && |ops| <= 3
    ensures forall k :: 0 <= k < |ops| ==> ops[k].Kind() != NullKind && Resized(row.opnds[k], ops[k]).Kind() != NullKind
  {
    forall k | 0 <= k < |ops| ensures ops[k].Kind() != NullKind && Resized(row.opnds[k], ops[k]).Kind() != NullKind {
      assert Proper(ops[k]);
    }
  }

  /** The long form of MOV is not chosen loosely where the short form would take the operands in the row's sizes. */
  lemma LongFormNotFirst(t: Tables, ops: seq<Operand>, i: nat)
    requires ExcerptTables(t) && |t.opcodes| == MNEMONICS && 9 <= i < 12 && |t.opcodes[MOV]| == 18
    requires LooseMatch(t.opcodes[MOV][i], ops)
    requires Usable(t.opcodes[MOV][i - 3], ResizeAll(t.opcodes[MOV][i], ops))
    ensures Accepted(t.opcodes[MOV][i - 3], ops, false)
  {
    hide ExcerptTables, MovRows, Hashable, Described;
    MovRow(t, i);
    MovRow(t, i - 3);
    MovForm(i);
    MovForm(i - 3);
    var row, short, ops' := t.opcodes[MOV][i], t.opcodes[MOV][i - 3], ResizeAll(t.opcodes[MOV][i], ops);
    forall k | 0 <= k < |ops| ensures KindFits(short.opnds[k], ops[k]) {
      assert StrictFits(short.opnds[k], ops'[k]);
    }
    assert ops[0].Size() == row.opnds[0].size;
  }

  /** The short form of MOV is chosen again. */
  lemma ShortFormAgain(t: Tables, ops: seq<Operand>, i: nat)
    requires ExcerptTables(t) && |t.opcodes| == MNEMONICS && 6 <= i < 9 && |t.opcodes[MOV]| == 18
    requires Usable(t.opcodes[MOV][i], ops) && EndsInImm(ops)
    requires Regular(Shapes(ops)) && Hash(Shapes(ops)) < HASH_MAX
    requires forall k :: 0 <= k < |ops| ==> ops[k].Kind() != NullKind
    ensures |t.maps| == MNEMONICS && |t.maps[MOV]| == HASH_MAX && Select(t.opcodes[MOV], t.maps[MOV], ops) == Some(i)
  {
    hide ExcerptTables, MovRows, Hashable, Described, Shapes, Hash, Regular, Slot, Scan, StrictMatch;
    var rows := t.opcodes[MOV];
    ExcerptCovered(t);
    assert Indexed(t.maps[MOV], rows);
    ShortRowOnly(t, i, ops);
    ShortFormChosen(rows, ops);
    var s := Slot(rows, Hash(Shapes(ops)));
    if i < s {
      TwoRows(t, MOV, s, i, ops);
      LongFormMasked(t, s);
    }
  }

  lemma ShortRowOnly(t: Tables, i: nat, ops: seq<Operand>)
    requires ExcerptTables(t) && |t.opcodes| == MNEMONICS && 6 <= i < 9 && |t.opcodes[MOV]| == 18
    requires Usable(t.opcodes[MOV][i], ops) && forall k :: 0 <= k < |ops| ==> ops[k].Kind() != NullKind
    ensures UsableShort(t.opcodes[MOV][i], ops) && forall k :: 0 <= k < |ops| ==> ops[k].Kind() != Mem
  {
    hide ExcerptTables, MovRows, Hashable, Described;
    MovRow(t, i);
    MovForm(i);
    var row := t.opcodes[MOV][i];
    assert !Masked(row.opnds[0]) && !Masked(row.opnds[1]);
    forall k | 0 <= k < |ops| ensures ops[k].Kind() != Mem {
      assert StrictFits(row.opnds[k], ops[k]);
    }
  }

  lemma LongFormMasked(t: Tables, i: nat)
    requires ExcerptTables(t) && |t.opcodes| == MNEMONICS && 9 <= i < 12 && |t.opcodes[MOV]| == 18
    ensures Split(t.opcodes[MOV][i]).Some?
  {
    hide ExcerptTables, MovRows, Hashable, Described;
    MovRow(t, i);
    MovForm(i);
    assert Masked(t.opcodes[MOV][i].opnds[0]);
  }

  lemma ImmRowExplicit(t: Tables, mn: nat, ops: seq<Operand>)
    requires ExcerptTables(t) && 1 <= mn < MNEMONICS && Decodable(t, mn, ops) && EndsInImm(ops)
    requires !ChosenRow(t, mn, ops).decoderOnly
    ensures Explicit(ChosenRow(t, mn, ops)) && 1 <= |ops| <= 2 && mn != LEA && Hashable(ChosenRow(t, mn, ops))
  {
    hide ExcerptTables, Hashable, Described, Distinguished, SearchableTable, Encodes, RowsOf, FormAt, FamilyOf,
      LooseMatch, AllProper, Suits, TagOf;
    var i, row := ChosenIndex(t, mn, ops), ChosenRow(t, mn, ops);
    LooseCount(row, ops);
    Size(t);
    RowOf(t, mn);
    RowFields(t, mn, i);
    if mn == LEA {
      NoImmInLea(t, i, ops);
    } else {
      RowForms(mn, i);
      if Implicit(row) {
        ImplicitTakesReg(row, ops);
      }
    }
  }

  lemma LooseCount(row: OpcodeDesc, ops: seq<Operand>)
    requires LooseMatch(row, ops)
    ensures |ops| == |row.roles|
  {
  }

  lemma ImplicitTakesReg(row: OpcodeDesc, ops: seq<Operand>)
    requires Implicit(row) && LooseMatch(row, ops) && |ops| == 2
    ensures !ops[1].ImmOpnd?
  {
    assert KindFits(row.opnds[1], ops[1]);
  }

  /** Every regular list that ends in an immediate and that the excerpt decodes again can be patched. */
  lemma ExcerptSettled(t: Tables, mn: nat, ops: seq<Operand>)
    requires ExcerptTables(t) && 1 <= mn < MNEMONICS && Regular(Shapes(ops)) && Hash(Shapes(ops)) < HASH_MAX
    requires Decodable(t, mn, ops) && EndsInImm(ops)
    ensures Patchable(t, mn, ops) && Settled(t, mn, ops)
  {
    hide ExcerptTables, Shapes, Hash, Regular, Described, Distinguished, SearchableTable, LooseMatch, StrictMatch,
      Hashable, Resized, Scan, Slot;
    ExcerptChoice(t, mn, ops);
    var rows, i := t.opcodes[mn], ChosenIndex(t, mn, ops);
    var row := rows[i];
    var ops' := ResizeAll(row, ops);
    ImmRowExplicit(t, mn, ops);
    if StrictMatch(row, ops) {
      StrictSettled(t, mn, ops);
    } else {
      LooseSettled(t, mn, ops);
    }
  }

  lemma LooseSettled(t: Tables, mn: nat, ops: seq<Operand>)
    requires ExcerptTables(t) && 1 <= mn < MNEMONICS && Regular(Shapes(ops)) && Hash(Shapes(ops)) < HASH_MAX
    requires Decodable(t, mn, ops) && EndsInImm(ops) && !StrictMatch(ChosenRow(t, mn, ops), ops)
    ensures Settled(t, mn, ops)
  {
    hide ExcerptTables, Shapes, Hash, Regular, Described, Distinguished, SearchableTable, LooseMatch, StrictMatch,
      Hashable, Slot;
    ExcerptChoice(t, mn, ops);
    ExcerptCovered(t);
    var rows, i := t.opcodes[mn], ChosenIndex(t, mn, ops);
    var row := rows[i];
    var ops' := ResizeAll(row, ops);
    ImmRowExplicit(t, mn, ops);
    NoStrictRow(t, mn, ops);
    ResizedMatch(row, ops);
    KindsNotNull(row, ops);
    FitRegular(row, ops');
    assert Usable(row, ops');
    if j :| 0 <= j < |rows| && Usable(rows[j], ops') && j != i {
      if j < i {
        TwoRows(t, mn, i, j, ops');
        MovRow(t, 0);
        LongFormNotFirst(t, ops, i);
      } else {
        TwoRows(t, mn, j, i, ops');
        MovRow(t, 0);
        ShortFormAgain(t, ops', i);
      }
    } else {
      OnlyRowSettled(t, mn, ops);
    }
  }
}
