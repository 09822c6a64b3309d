/**
 * Patching live code: the wrapper decodes an instruction, replaces its immediate and
 * encodes it again in place.
 */
module Patch {
  import opened Basics
  import opened X86
  import opened Rows
  import opened ModRM
  import opened Encoder
  import opened Decoder
  import opened OperandHash
  import opened RoundTrip
  import TableBuilder

  /** The operands are decodable, and the row encodes every one of them, as patching needs. */
  ghost predicate Patchable(t: TableBuilder.Tables, mn: nat, ops: seq<Operand>) {
    Decodable(t, mn, ops) && Explicit(ChosenRow(t, mn, ops))
  }

  /** The code at a position holds an instruction the encoder produced from these operands. */
  ghost predicate Written(t: TableBuilder.Tables, mn: nat, ops: seq<Operand>, stale: bits2, code: Code, at: nat) {
    Patchable(t, mn, ops) && Holds(code, at, RowBytes(ChosenRow(t, mn, ops), ops, stale))
  }

  /** Operands of the row's own sizes, which is how they are decoded, get the same row again. */
  ghost predicate Settled(t: TableBuilder.Tables, mn: nat, ops: seq<Operand>)
    requires Encodes(t, mn, ops)
  {
    var ops' := ResizeAll(ChosenRow(t, mn, ops), ops);
    Encodes(t, mn, ops') && ChosenIndex(t, mn, ops') == ChosenIndex(t, mn, ops)
  }

  /** Operands that match the row strictly are settled. */
  lemma StrictSettled(t: TableBuilder.Tables, mn: nat, ops: seq<Operand>)
    requires Encodes(t, mn, ops) && StrictMatch(ChosenRow(t, mn, ops), ops)
    ensures Settled(t, mn, ops)
  {
    StrictUnchanged(ChosenRow(t, mn, ops), ops);
  }

  /** So are operands that match loosely, if no other row takes them once they have the row's sizes. */
  lemma OnlyRowSettled(t: TableBuilder.Tables, mn: nat, ops: seq<Operand>)
    requires WellFormed(t) && Decodable(t, mn, ops) && !ChosenRow(t, mn, ops).decoderOnly
    requires var ops' := ResizeAll(ChosenRow(t, mn, ops), ops);
             && Regular(Shapes(ops')) && Hash(Shapes(ops')) < HASH_MAX
             && forall j :: 0 <= j < |t.opcodes[mn]| && TableBuilder.Usable(t.opcodes[mn][j], ops') ==>
                  j == ChosenIndex(t, mn, ops)
    ensures Settled(t, mn, ops)
  {
    hide Described, Distinguished, Shapes, Hash, SearchableTable, AllProper, LooseMatch, StrictMatch, Regular, Resized;
    var row := ChosenRow(t, mn, ops);
    var ops' := ResizeAll(row, ops);
    ResizedMatch(row, ops);
    assert TableBuilder.Usable(row, ops');
    assert TableBuilder.Indexed(t.maps[mn], t.opcodes[mn]);
    TableBuilder.SelectStrict(t.opcodes[mn], t.maps[mn], ops');
  }

  /** Otherwise the re-encoded instruction is not one of the old row: being settled is necessary as well. */
  lemma UnsettledMoves(t: TableBuilder.Tables, mn: nat, ops: seq<Operand>, ops': seq<Operand>, stale: bits2,
                       code: Code, at: nat)
    requires Locatable(t, mn, ops) && Locatable(t, mn, ops')
    requires Holds(code, at, RowBytes(ChosenRow(t, mn, ops'), ops', stale))
    requires ChosenIndex(t, mn, ops') != ChosenIndex(t, mn, ops)
    ensures !RowAccepts(ChosenRow(t, mn, ops), code, at)
  {
    hide RowAccepts, Legible, Disjoint, RowBytes, Holds, SearchableTable, RowLength, RowOperands, Decodable;
    EncodeDecode(t, mn, ops', stale, code, at);
    var i, j := ChosenIndex(t, mn, ops), ChosenIndex(t, mn, ops');
    if j < i && RowAccepts(t.opcodes[mn][i], code, at) {
      FoundFirst(t.opcodes, mn, i, code, at);
    }
  }

  /** Operands of the same shape get the same row. */
  lemma SameChoice(t: TableBuilder.Tables, mn: nat, ops: seq<Operand>, ops': seq<Operand>)
    requires Encodes(t, mn, ops) && Shapes(ops') == Shapes(ops)
    ensures Encodes(t, mn, ops') && ChosenIndex(t, mn, ops') == ChosenIndex(t, mn, ops)
    ensures ChosenRow(t, mn, ops') == ChosenRow(t, mn, ops) && Supplies(ChosenRow(t, mn, ops), ops')
  {
    hide Shapes, Hash;
    assert |ops'| == |Shapes(ops')| == |Shapes(ops)| == |ops|;
    TableBuilder.SelectByShape(t.opcodes[mn], t.maps[mn], ops, ops');
  }

  /** Settled operands may be taken in the row's sizes: the same row, strictly matched, and the same bytes. */
  lemma InRowSizes(t: TableBuilder.Tables, mn: nat, ops: seq<Operand>, stale: bits2)
    requires Patchable(t, mn, ops) && Settled(t, mn, ops)
    ensures var row, ops' := ChosenRow(t, mn, ops), ResizeAll(ChosenRow(t, mn, ops), ops);
            && Patchable(t, mn, ops') && ChosenRow(t, mn, ops') == row && StrictMatch(row, ops')
            && RowBytes(row, ops', stale) == RowBytes(row, ops, stale)
  {
    hide Described, Distinguished, SearchableTable, StrictMatch, LooseMatch, Resized, RowBytes, Proper;
    var row := ChosenRow(t, mn, ops);
    EncodedWithin(row, ops);
    ResizedMatch(row, ops);
    TableBuilder.StrictIsLoose(row, ResizeAll(row, ops));
    ResizedBytes(row, ops, stale);
  }

  /** The width of the immediate that ends an instruction. */
  function ImmWidth(row: OpcodeDesc): Option<Width> {
    var last := if row.aux1.NoAux? then row.aux0 else row.aux1;
    if last.Immediate() then Some(last.width) else None
  }

  /** The bytes before that immediate. */
  function Head(row: OpcodeDesc, ops: seq<Operand>, stale: bits2): seq<byte>
    requires Supplies(row, ops)
  {
    row.opcode + if row.aux1.NoAux? then [] else AuxBytes(row, row.aux0, ops, row.firstOpnd, stale)
  }

  lemma HeadThenImm(row: OpcodeDesc, ops: seq<Operand>, stale: bits2)
    requires Explicit(row) && Supplies(row, ops) && StrictMatch(row, ops) && ops != [] && ops[|ops| - 1].ImmOpnd?
    ensures ImmWidth(row).Some?
    ensures ops[|ops| - 1].immSize == ImmWidth(row).value.ImmSize()
    ensures RowBytes(row, ops, stale) == Head(row, ops, stale) + LittleEndian(ImmWidth(row).value, ops[|ops| - 1].imm)
  {
    hide LittleEndian, StartsClean, RmBytes;
    var n := |ops| - 1;
    assert StrictFits(row.opnds[n], ops[n]);
    assert Imm in row.opnds[n].kinds && Imm in row.opnds[n].kinds - {Mem};
    if row.aux1.NoAux? {
      assert row.aux0.Immediate();
      assert row.opcode + [] == row.opcode;
      assert AuxBytes(row, row.aux1, ops, row.aux0.Consumes(), stale) == [];
      assert RowBytes(row, ops, stale) == row.opcode + AuxBytes(row, row.aux0, ops, 0, stale);
    } else {
      assert row.aux0.Consumes() == n;
    }
  }

  /** Head bytes of an instruction and of the same instruction with its first operand as decoded. */
  lemma SameHead(row: OpcodeDesc, a: Operand, v: Operand, v': Operand, stale: bits2, stale': bits2)
    requires Explicit(row) && StrictMatch(row, [a, v]) && Proper(a) && v.ImmOpnd?
    requires Supplies(row, [a, v]) && Supplies(row, [Seen(a), v'])
    ensures Head(row, [Seen(a), v'], stale') == Head(row, [a, v], stale)
  {
    hide LittleEndian, StartsClean, RmBytes;
    assert StrictFits(row.opnds[1], v);
    assert [a, v][1] == v && StrictFits(row.opnds[1], [a, v][1]);
    if row.aux0.SlashNum? {
      SeenSameBytes(a, row.aux0.digit, stale, stale');
    }
  }

  /** Rewriting an instruction whose head stays is a store into the immediate field. */
  lemma OnlyTheField(code: Code, at: nat, head: seq<byte>, old': seq<byte>, field: seq<byte>)
    requires Holds(code, at, head + old') && |old'| == |field|
    ensures Overlay(code, at, head + field) == Overlay(code, at + |head|, field)
  {
    HoldsSplit(code, at, head, old');
    var n := at + |head|;
    assert code[..n] == code[..at] + head;
    assert at + |head + field| == n + |field|;
  }

  lemma SeenShapes(a: Operand, v: Operand, v': Operand)
    requires v.ImmOpnd? && v'.ImmOpnd? && v.immSize == v'.immSize
    ensures Shapes([Seen(a), v']) == Shapes([a, v]) == Shapes([a, v']) && Shapes([v']) == Shapes([v])
  {
  }

  /** Re-encoding with an equal head and a new immediate rewrites the immediate field alone. */
  lemma PatchedField(row: OpcodeDesc, ops: seq<Operand>, ops': seq<Operand>, stale: bits2, stale': bits2,
                     code: Code, at: nat)
    requires Explicit(row) && StrictMatch(row, ops) && Shapes(ops) == Shapes(ops') && |ops| == |ops'| > 0
    requires ops[|ops| - 1].ImmOpnd? && ops'[|ops| - 1].ImmOpnd?
    requires Supplies(row, ops) && Supplies(row, ops') && Head(row, ops', stale') == Head(row, ops, stale)
    requires Holds(code, at, RowBytes(row, ops, stale))
    ensures ImmWidth(row).Some?
    ensures |RowBytes(row, ops', stale')| == |RowBytes(row, ops, stale)|
    ensures |RowBytes(row, ops, stale)| == |Head(row, ops, stale)| + ImmWidth(row).value.Count()
    ensures at + |RowBytes(row, ops, stale)| <= |code|
    ensures Overlay(code, at, RowBytes(row, ops', stale'))
         == Overlay(code, at + |Head(row, ops, stale)|, LittleEndian(ImmWidth(row).value, ops'[|ops| - 1].imm))
  {
    hide Explicit, RowBytes, LittleEndian, Overlay, Head, Shapes, StrictFits, Supplies;
    TableBuilder.MatchByShape(row, ops, ops');
    HeadThenImm(row, ops, stale);
    HeadThenImm(row, ops', stale');
    OnlyTheField(code, at, Head(row, ops, stale), LittleEndian(ImmWidth(row).value, ops[|ops| - 1].imm),
                 LittleEndian(ImmWidth(row).value, ops'[|ops| - 1].imm));
  }

  /** The location recorded for the immediate is right behind the head. */
  lemma FieldLocation(row: OpcodeDesc, ops: seq<Operand>, cur: seq<Option<nat>>, at: nat, stale: bits2)
    requires Explicit(row) && StrictMatch(row, ops) && ops != [] && ops[|ops| - 1].ImmOpnd? && |cur| == 3
    requires Supplies(row, ops)
    ensures |ops| <= 3 && RowLocated(cur, row, ops, at)[|ops| - 1] == Some(at + |Head(row, ops, stale)|)
  {
    HeadThenImm(row, ops, stale);
    hide LittleEndian, StartsClean, RmBytes;
    assert |row.opcode + []| == |row.opcode|;
    AuxBytesLength(row, row.aux0, ops, 0, stale, 0);
  }

  /**
   * What decoding gives after a patch: the same row is found, all operands but the immediate are decoded as
   * they were before, and the immediate is the new one exactly when it fits the field.
   */
  ghost predicate Redecoded(t: TableBuilder.Tables, mn: nat, i: nat, v: Operand, code: Code, code': Code, at: nat) {
    && 1 <= mn < |t.opcodes| && i < |t.opcodes[mn]|
    && var row := t.opcodes[mn][i];
       && Searchable(row) && RowAccepts(row, code, at) && RowAccepts(row, code', at)
       && PrefixEnd(code', at) == at && FirstInTable(t.opcodes, code', at, mn, i)
       && RowLength(row, code', at) == RowLength(row, code, at)
       && var got, got' := RowOperands(row, code, at), RowOperands(row, code', at);
          && |got'| == |got| > 0 && got'[..|got| - 1] == got[..|got| - 1]
          && (got'[|got| - 1] == v <==> Sound(v))
  }

  /**
   * What a patch does: the length stays, the recorded immediate field is the only part of the buffer that
   * changes, the code holds an instruction of the encoder again, of the same row and with the new operand
   * list, and it decodes accordingly.
   */
  ghost predicate Patched(t: TableBuilder.Tables, mn: nat, ops: seq<Operand>, ops': seq<Operand>, stale: bits2,
                          code: Code, code': Code, at: nat, next: nat, location: Option<nat>)
    requires Encodes(t, mn, ops)
  {
    var row := ChosenRow(t, mn, ops);
    var n := |ops| - 1;
    && |ops| == |ops'| > 0 && ops'[n].ImmOpnd?
    && next == at + |RowBytes(row, ops, stale)| <= |code|
    && ImmWidth(row).Some? && at + ImmWidth(row).value.Count() <= next
    && location == Some(next - ImmWidth(row).value.Count())
    && ops'[n].immSize == ImmWidth(row).value.ImmSize()
    && code' == Overlay(code, location.value, LittleEndian(ImmWidth(row).value, ops'[n].imm))
    && Written(t, mn, ops', stale, code', at) && ChosenIndex(t, mn, ops') == ChosenIndex(t, mn, ops)
    && Redecoded(t, mn, ChosenIndex(t, mn, ops), ops'[n], code, code', at)
  }

  /** A new immediate of the same size is proper again. */
  lemma StillProper(ops: seq<Operand>, ops': seq<Operand>)
    requires AllProper(ops) && |ops| == |ops'| > 0 && ops[|ops| - 1].ImmOpnd? && ops'[|ops| - 1].ImmOpnd?
    requires ops[|ops| - 1].immSize == ops'[|ops| - 1].immSize && ops'[..|ops| - 1] == ops[..|ops| - 1]
    ensures AllProper(ops')
  {
    forall i | 0 <= i < |ops'| ensures Proper(ops'[i]) {
      assert Proper(ops[i]);
      if i < |ops| - 1 {
        assert ops'[..|ops| - 1][i] == ops[..|ops| - 1][i];
      }
    }
  }

  /** Instructions of the same row with equal sound operands before the immediate decode alike. */
  lemma RedecodedAs(t: TableBuilder.Tables, mn: nat, ops: seq<Operand>, ops': seq<Operand>, stale: bits2,
                    code: Code, code': Code, at: nat)
    requires Written(t, mn, ops, stale, code, at) && Written(t, mn, ops', stale, code', at)
    requires ChosenIndex(t, mn, ops) == ChosenIndex(t, mn, ops') && StrictMatch(ChosenRow(t, mn, ops), ops)
    requires Shapes(ops) == Shapes(ops') && |ops| == |ops'| > 0 && ops'[|ops| - 1].ImmOpnd?
    requires forall i :: 0 <= i < |ops| - 1 ==> ops'[i] == ops[i] && Sound(ops[i])
    requires |RowBytes(ChosenRow(t, mn, ops), ops, stale)| == |RowBytes(ChosenRow(t, mn, ops), ops', stale)|
    ensures Redecoded(t, mn, ChosenIndex(t, mn, ops), ops'[|ops| - 1], code, code', at)
  {
    hide RowBytes, Encodes, Described, Distinguished, LooseMatch, AllProper, StrictMatch, Holds, SearchableTable,
      RowAccepts, RowLength, RowOperands, PrefixEnd, RepeatsGroup, FirstInTable, Sound, Seen, Searchable,
      Resized, Shapes, Survives;
    var row := ChosenRow(t, mn, ops);
    PatchableDecode(t, mn, ops, stale, code, at);
    PatchableDecode(t, mn, ops', stale, code', at);
    TableBuilder.MatchByShape(row, ops, ops');
    StrictUnchanged(row, ops);
    StrictUnchanged(row, ops');
    var got, got' := RowOperands(row, code, at), RowOperands(row, code', at);
    forall i | 0 <= i < |ops| - 1 ensures got'[i] == got[i] {
      assert RecoveredAs(ops[i], got[i]) && RecoveredAs(ops'[i], got'[i]);
    }
    FoundTable(t, mn, ops);
    assert RecoveredAs(ops'[|ops| - 1], got'[|ops| - 1]);
    ImmSeen(ops'[|ops| - 1]);
  }

  /** The round trip where every operand is encoded. */
  lemma PatchableDecode(t: TableBuilder.Tables, mn: nat, ops: seq<Operand>, stale: bits2, code: Code, at: nat)
    requires Written(t, mn, ops, stale, code, at)
    ensures PrefixEnd(code, at) == at && FirstInTable(t.opcodes, code, at, mn, ChosenIndex(t, mn, ops))
    ensures RowLength(ChosenRow(t, mn, ops), code, at) == |RowBytes(ChosenRow(t, mn, ops), ops, stale)|
    ensures Searchable(ChosenRow(t, mn, ops)) && RowAccepts(ChosenRow(t, mn, ops), code, at)
    ensures Returned(ChosenRow(t, mn, ops), ops, RowOperands(ChosenRow(t, mn, ops), code, at))
  {
    hide RowBytes, Encodes, Described, Distinguished, LooseMatch, AllProper, Holds, SearchableTable, RowAccepts,
      RowLength, RowOperands, PrefixEnd, RepeatsGroup, FirstInTable, Returned, Searchable, EncodedCount, Reported;
    DecodableLocatable(t, mn, ops);
    EncodeDecode(t, mn, ops, stale, code, at);
    AllEncoded(ChosenRow(t, mn, ops), ops);
  }

  lemma AllEncoded(row: OpcodeDesc, ops: seq<Operand>)
    requires Explicit(row) && LooseMatch(row, ops)
    ensures EncodedCount(row) == |ops| == Reported(row) && ops[..EncodedCount(row)] == ops
  {
    EncodedWithin(row, ops);
  }

  lemma ImmSeen(v: Operand)
    requires v.ImmOpnd?
    ensures Seen(v) == v
  {
  }

  lemma FoundTable(t: TableBuilder.Tables, mn: nat, ops: seq<Operand>)
    requires Patchable(t, mn, ops)
    ensures 1 <= mn < |t.opcodes| && Searchable(ChosenRow(t, mn, ops))
  {
  }

  /** The common part of both patches: ops' is the operand list asked for, seen' the one re-encoded. */
  lemma Reencoded(t: TableBuilder.Tables, mn: nat, ops: seq<Operand>, ops': seq<Operand>, seen': seq<Operand>,
                  stale: bits2, stale': bits2, code: Code, at: nat, cur: seq<Option<nat>>)
    requires Written(t, mn, ops, stale, code, at) && StrictMatch(ChosenRow(t, mn, ops), ops) && |cur| == 3
    requires |ops| == |ops'| == |seen'| > 0 && Shapes(ops') == Shapes(ops) && Shapes(seen') == Shapes(ops)
    requires ops[|ops| - 1].ImmOpnd? && ops'[|ops| - 1].ImmOpnd? && seen'[|ops| - 1] == ops'[|ops| - 1]
    requires ops[|ops| - 1].immSize == ops'[|ops| - 1].immSize
    requires forall i :: 0 <= i < |ops| - 1 ==> ops'[i] == ops[i] && Sound(ops[i])
    requires Supplies(ChosenRow(t, mn, ops), ops') && Supplies(ChosenRow(t, mn, ops), seen')
    requires Head(ChosenRow(t, mn, ops), ops', stale) == Head(ChosenRow(t, mn, ops), ops, stale)
    requires Head(ChosenRow(t, mn, ops), seen', stale') == Head(ChosenRow(t, mn, ops), ops, stale)
    ensures Encodes(t, mn, seen') && ChosenRow(t, mn, seen') == ChosenRow(t, mn, ops)
    ensures at + |RowBytes(ChosenRow(t, mn, ops), seen', stale')| <= |code|
    ensures Patched(t, mn, ops, ops', stale, code,
                    Overlay(code, at, RowBytes(ChosenRow(t, mn, ops), seen', stale')), at,
                    at + |RowBytes(ChosenRow(t, mn, ops), seen', stale')|,
                    RowLocated(cur, ChosenRow(t, mn, ops), seen', at)[|ops| - 1])
  {
    hide RowBytes, Head, LittleEndian, Overlay, Shapes, Hash, Described, Encodes, Distinguished, SearchableTable,
      Supplies, StrictMatch, LooseMatch, Holds, RowLocated, ImmWidth, Sound, Redecoded, AllProper;
    var row, n := ChosenRow(t, mn, ops), |ops| - 1;
    SameChoice(t, mn, ops, seen');
    SameChoice(t, mn, ops, ops');
    PatchedField(row, ops, seen', stale, stale', code, at);
    PatchedField(row, ops, ops', stale, stale, code, at);
    TableBuilder.MatchByShape(row, ops, seen');
    TableBuilder.MatchByShape(row, ops, ops');
    FieldLocation(row, seen', cur, at, stale');
    HeadThenImm(row, ops', stale);
    OverlayHolds(code, at, RowBytes(row, ops', stale));
    StillProper(ops, ops');
    RedecodedAs(t, mn, ops, ops', stale, code, Overlay(code, at, RowBytes(row, ops', stale)), at);
  }

  /** The same for the operands in the sizes they were given in. */
  lemma PatchedInRowSizes(t: TableBuilder.Tables, mn: nat, ops: seq<Operand>, ops': seq<Operand>, stale: bits2,
                          code: Code, code': Code, at: nat, next: nat, location: Option<nat>)
    requires Patchable(t, mn, ops) && Settled(t, mn, ops)
    requires Patched(t, mn, ResizeAll(ChosenRow(t, mn, ops), ops), ops', stale, code, code', at, next, location)
    ensures Patched(t, mn, ops, ops', stale, code, code', at, next, location)
  {
    hide Patchable, RowBytes, Overlay, LittleEndian, ImmWidth, Written, Redecoded, Resized, Encodes;
    InRowSizes(t, mn, ops, stale);
  }

  /** encoder_update_imm, on an instruction whose only operand is an immediate (a jump, a call, a push). */
  method UpdateImm(cb: CodeBuffer, t: TableBuilder.Tables, imm: int32, stream: nat,
                   ghost mn: nat, ghost v: Operand, ghost stale: bits2) returns (next: nat)
    requires cb.Valid() && v.ImmOpnd? && Written(t, mn, [v], stale, cb.buf[..], stream) && Settled(t, mn, [v])
    modifies cb, cb.buf
    ensures cb.Valid()
    ensures Patched(t, mn, [v], [ImmOpnd(ChosenRow(t, mn, [v]).opnds[0].size, imm)], stale,
                    old(cb.buf[..]), cb.buf[..], stream, next, cb.curRelOpnd[0])
  {
    hide RowBytes, Head, LittleEndian, Overlay, Shapes, Hash, StaleScale, Described, Distinguished, SearchableTable,
      AllProper, LooseMatch, Encodes, ChosenRow, Supplies, StrictMatch, Holds, RowLocated, Patched;
    ghost var code, row := cb.buf[..], ChosenRow(t, mn, [v]);
    ghost var w, v' := Resized(row.opnds[0], v), ImmOpnd(row.opnds[0].size, imm);
    ghost var stale' := StaleScale(code, stream + |row.opcode|);
    InRowSizes(t, mn, [v], stale);
    assert ResizeAll(row, [v]) == [w];
    DecodableLocatable(t, mn, [w]);
    AllEncoded(row, [w]);
    var size, inst := DecodeWritten(t, mn, [w], stale, cb.buf[..], stream);
    RowOfDecodable(t, mn, [w]);
    StrictUnchanged(row, [w]);
    assert RecoveredAs([w][0], inst.operands[..1][0]);
    assert ShapeOf(inst.operands[0]) == ShapeOf(w);
    var args := new Operands();
    args.Add(ImmOpnd(inst.operands[0].Size(), imm));
    assert args.items == [v'];
    SeenShapes(NoOpnd, w, v');
    SameChoice(t, mn, [w], [v']);
    OneHead(row, w, v', stale, stale');
    Reencoded(t, mn, [w], [v'], [v'], stale, stale', code, stream, cb.curRelOpnd);
    RowBytesLength(row, [v'], stale', 0);
    next := cb.Encode(t, stream, inst.mn, args);
    PatchedInRowSizes(t, mn, [v], [v'], stale, code, cb.buf[..], stream, next, cb.curRelOpnd[0]);
  }

  lemma RowOfDecodable(t: TableBuilder.Tables, mn: nat, ops: seq<Operand>)
    requires Patchable(t, mn, ops)
    ensures Explicit(ChosenRow(t, mn, ops)) && Supplies(ChosenRow(t, mn, ops), ops) && AllProper(ops)
  {
  }

  lemma OneHead(row: OpcodeDesc, v: Operand, v': Operand, stale: bits2, stale': bits2)
    requires Explicit(row) && StrictMatch(row, [v]) && Supplies(row, [v]) && Supplies(row, [v'])
    ensures Head(row, [v'], stale') == Head(row, [v], stale) == Head(row, [v'], stale)
  {
  }

  /**
   * encoder_update_imm_rm, on an instruction with an immediate and a register or memory operand; the encoder
   * itself asserts that no index is ESP.
   */
  method UpdateImmRm(cb: CodeBuffer, t: TableBuilder.Tables, imm: int32, stream: nat,
                     ghost mn: nat, ghost a: Operand, ghost v: Operand, ghost stale: bits2) returns (next: nat)
    requires cb.Valid() && v.ImmOpnd? && Written(t, mn, [a, v], stale, cb.buf[..], stream) && Settled(t, mn, [a, v])
    requires Sound(Resized(ChosenRow(t, mn, [a, v]).opnds[0], a))
    modifies cb, cb.buf
    ensures cb.Valid()
    ensures var row := ChosenRow(t, mn, [a, v]);
            Patched(t, mn, [a, v], [Resized(row.opnds[0], a), ImmOpnd(row.opnds[1].size, imm)], stale,
                    old(cb.buf[..]), cb.buf[..], stream, next, cb.curRelOpnd[1])
  {
    hide RowBytes, Head, LittleEndian, Overlay, Shapes, Hash, StaleScale, Described, Distinguished, SearchableTable,
      LooseMatch, Encodes, ChosenRow, Supplies, StrictMatch, Holds, RowLocated, Patched, Seen;
    ghost var code, row := cb.buf[..], ChosenRow(t, mn, [a, v]);
    ghost var b, w, v' := Resized(row.opnds[0], a), Resized(row.opnds[1], v), ImmOpnd(row.opnds[1].size, imm);
    ghost var stale' := StaleScale(code, stream + |row.opcode|);
    InRowSizes(t, mn, [a, v], stale);
    assert ResizeAll(row, [a, v]) == [b, w];
    DecodableLocatable(t, mn, [b, w]);
    AllEncoded(row, [b, w]);
    var size, inst := DecodeWritten(t, mn, [b, w], stale, cb.buf[..], stream);
    RowOfDecodable(t, mn, [b, w]);
    StrictUnchanged(row, [b, w]);
    assert RecoveredAs([b, w][0], inst.operands[..2][0]) && RecoveredAs([b, w][1], inst.operands[..2][1]);
    assert inst.operands[0] == Seen(b) && ShapeOf(inst.operands[1]) == ShapeOf(w);
    var args := new Operands();
    args.Add(inst.operands[0]);
    args.Add(ImmOpnd(inst.operands[1].Size(), imm));
    assert args.items == [Seen(b), v'];
    SeenShapes(b, w, v');
    SameChoice(t, mn, [b, w], [Seen(b), v']);
    SameChoice(t, mn, [b, w], [b, v']);
    assert Proper([b, w][0]);
    SameHead(row, b, w, v', stale, stale');
    FirstHead(row, b, w, v', stale);
    Reencoded(t, mn, [b, w], [b, v'], [Seen(b), v'], stale, stale', code, stream, cb.curRelOpnd);
    RowBytesLength(row, [Seen(b), v'], stale', 0);
    next := cb.Encode(t, stream, inst.mn, args);
    PatchedInRowSizes(t, mn, [a, v], [b, v'], stale, code, cb.buf[..], stream, next, cb.curRelOpnd[1]);
  }

  lemma FirstHead(row: OpcodeDesc, a: Operand, v: Operand, v': Operand, stale: bits2)
    requires Explicit(row) && StrictMatch(row, [a, v]) && v.ImmOpnd?
    requires Supplies(row, [a, v]) && Supplies(row, [a, v'])
    ensures Head(row, [a, v'], stale) == Head(row, [a, v], stale)
  {
    hide LittleEndian, StartsClean, RmBytes;
    assert StrictFits(row.opnds[1], [a, v][1]);
  }

  // ----- the assertions met on the way -----

  /** Re-encoding a decoded operand meets the assertions again, unless it was [ESP + disp] without an index. */
  lemma ReencodeAsserts(op: Operand)
    requires Addressing(op) && AssertsHold(op)
    ensures AssertsHold(Seen(op)) <==> !(op.index.NoReg? && op.base == ESP)
  {
  }
}
