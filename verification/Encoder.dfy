/**
 * The instruction encoder: it writes an instruction into a code buffer through an
 * advancing position, assigning ModR/M and SIB bit fields in place, and records where
 * each operand's displacement or immediate was put.
 */
module Encoder {
  import opened Basics
  import opened X86
  import opened Rows
  import opened ModRM
  import opened OperandHash
  import opened TableBuilder

  const MAX_NATIVE_INST_SIZE: nat := 15

  // ----- the bytes of an instruction -----

  /** The position in the operand list of the r/m operand of /r, and of the register operand. */
  function RmPos(row: OpcodeDesc): nat {
    if Mem in row.opnds[0].kinds then 0 else 1
  }

  function RegPos(row: OpcodeDesc): nat { 1 - RmPos(row) }

  /** The bytes of one element whose operands start at position k. */
  function AuxBytes(row: OpcodeDesc, aux: Aux, ops: seq<Operand>, k: nat, stale: bits2): (s: seq<byte>)
    requires k + aux.Consumes() <= |ops|
    ensures |s| <= if aux.SlashR? || aux.SlashNum? then 6 else 4
  {
    match aux
    case NoAux => []
    case SlashR => RmBytes(ops[k + RmPos(row)], HwIndex(ops[k + RegPos(row)].RegOf()), stale)
    case SlashNum(digit) => RmBytes(ops[k], digit, stale)
    case ImmField(w) => LittleEndian(w, ops[k].ImmOf())
    case RelField(w) => LittleEndian(w, ops[k].ImmOf())
    case PlusReg(_, base) => [(base + HwIndex(ops[k].RegOf())) % 256]
    case PlusI(base) => [(base + HwIndex(ops[k].RegOf())) % 256]
  }

  /** The operands are as many as the row's elements consume; a second element is an immediate. */
  predicate Supplies(row: OpcodeDesc, ops: seq<Operand>) {
    && |ops| <= 3
    && row.firstOpnd + row.aux0.Consumes() + row.aux1.Consumes() <= |ops|
    && (row.aux1.NoAux? || row.aux1.Immediate())
    && (row.aux0.NoAux? ==> row.aux1.NoAux?)
  }

  /** The whole instruction, given the bits the buffer holds where a SIB byte would have its SS field. */
  function RowBytes(row: OpcodeDesc, ops: seq<Operand>, stale: bits2): (s: seq<byte>)
    requires Supplies(row, ops)
  {
    row.opcode + AuxBytes(row, row.aux0, ops, row.firstOpnd, stale) +
    AuxBytes(row, row.aux1, ops, row.firstOpnd + row.aux0.Consumes(), stale)
  }

  /** No instruction is longer than 14 bytes. */
  lemma LengthBound(row: OpcodeDesc, ops: seq<Operand>, stale: bits2)
    requires Supplies(row, ops)
    ensures |RowBytes(row, ops, stale)| <= 14 < MAX_NATIVE_INST_SIZE
  {
  }

  /** The operand in the r/m position, if the row has one. */
  function RmOpnd(row: OpcodeDesc, ops: seq<Operand>): Operand
    requires Supplies(row, ops)
  {
    match row.aux0
    case SlashR => ops[row.firstOpnd + RmPos(row)]
    case SlashNum(_) => ops[row.firstOpnd]
    case _ => NoOpnd
  }

  /** The SS field is left as it was found: an index with a scale that is no scale factor. */
  predicate LeavesBits(op: Operand) {
    op.MemOpnd? && !op.index.NoReg? && !ValidScale(op.scale)
  }

  /** The instruction does not depend on what the buffer held, exactly when its SS field, if any, is assigned. */
  lemma BytesDetermined(row: OpcodeDesc, ops: seq<Operand>)
    requires Supplies(row, ops)
    ensures (forall stale, stale' :: RowBytes(row, ops, stale) == RowBytes(row, ops, stale'))
            <==> !LeavesBits(RmOpnd(row, ops))
  {
    if row.aux0.SlashR? || row.aux0.SlashNum? {
      hide RowBytes, RmBytes;
      var op := RmOpnd(row, ops);
      var reg := if row.aux0.SlashR? then HwIndex(ops[row.firstOpnd + RegPos(row)].RegOf()) else row.aux0.digit;
      RmDetermined(op, reg);
      if LeavesBits(op) {
        var stale, stale' :| RmBytes(op, reg, stale) != RmBytes(op, reg, stale');
        SameTailBytes(row, ops, op, reg, stale, stale');
      } else {
        forall stale: bits2, stale': bits2 ensures RowBytes(row, ops, stale) == RowBytes(row, ops, stale') {
          SameTailBytes(row, ops, op, reg, stale, stale');
        }
      }
    }
  }

  lemma RmDetermined(op: Operand, reg: bits3)
    ensures (forall stale, stale' :: RmBytes(op, reg, stale) == RmBytes(op, reg, stale')) <==> !LeavesBits(op)
  {
    hide MemBytes, ValidScale;
    if op.MemOpnd? {
      BitsDetermined(op, reg);
      assert forall stale :: RmBytes(op, reg, stale) == MemBytes(op, reg, stale);
      if LeavesBits(op) {
        var stale, stale' :| MemBytes(op, reg, stale) != MemBytes(op, reg, stale');
        assert RmBytes(op, reg, stale) != RmBytes(op, reg, stale');
      }
    }
  }

  lemma SameTailBytes(row: OpcodeDesc, ops: seq<Operand>, op: Operand, reg: bits3, stale: bits2, stale': bits2)
    requires Supplies(row, ops) && (row.aux0.SlashR? || row.aux0.SlashNum?) && op == RmOpnd(row, ops)
    requires reg == if row.aux0.SlashR? then HwIndex(ops[row.firstOpnd + RegPos(row)].RegOf()) else row.aux0.digit
    ensures RowBytes(row, ops, stale) == RowBytes(row, ops, stale')
            <==> RmBytes(op, reg, stale) == RmBytes(op, reg, stale')
  {
    hide LittleEndian, RmBytes;
    var k := row.firstOpnd + row.aux0.Consumes();
    ImmediateBytes(row, row.aux1, ops, k, stale, stale');
    RmBytesLength(op, reg, stale, reg, stale');
    Between(row.opcode, RmBytes(op, reg, stale), RmBytes(op, reg, stale'), AuxBytes(row, row.aux1, ops, k, stale));
  }

  lemma Between(a: seq<byte>, b: seq<byte>, b': seq<byte>, c: seq<byte>)
    requires |b| == |b'|
    ensures a + b + c == a + b' + c <==> b == b'
  {
    assert b == (a + b + c)[|a|..|a| + |b|] && b' == (a + b' + c)[|a|..|a| + |b|];
  }

  // ----- choosing the row -----

  predicate Indexable(t: Tables, mn: nat, ops: seq<Operand>) {
    && mn < |t.opcodes| && mn < |t.maps| && |t.maps[mn]| == HASH_MAX
    && |ops| <= 3 && Hash(Shapes(ops)) < HASH_MAX
  }

  /** A row is found for the operands, and they supply what its elements consume. */
  predicate Encodes(t: Tables, mn: nat, ops: seq<Operand>) {
    && Indexable(t, mn, ops)
    && var i := Select(t.opcodes[mn], t.maps[mn], ops);
       i.Some? && i.value < |t.opcodes[mn]| && Supplies(t.opcodes[mn][i.value], ops)
  }

  function ChosenIndex(t: Tables, mn: nat, ops: seq<Operand>): (i: nat)
    requires Encodes(t, mn, ops)
    ensures i < |t.opcodes[mn]|
  {
    Select(t.opcodes[mn], t.maps[mn], ops).value
  }

  function ChosenRow(t: Tables, mn: nat, ops: seq<Operand>): (row: OpcodeDesc)
    requires Encodes(t, mn, ops)
    ensures Supplies(row, ops)
  {
    t.opcodes[mn][ChosenIndex(t, mn, ops)]
  }

  // ----- writing into the buffer -----

  /** The buffer with the bytes s put at position at. */
  function Overlay(code: Code, at: nat, s: seq<byte>): (r: Code)
    requires at + |s| <= |code|
    ensures |r| == |code|
  {
    code[..at] + s + code[at + |s|..]
  }

  lemma OverlayHolds(code: Code, at: nat, s: seq<byte>)
    requires at + |s| <= |code|
    ensures Holds(Overlay(code, at, s), at, s)
    ensures Overlay(code, at, s)[..at] == code[..at] && Overlay(code, at, s)[at + |s|..] == code[at + |s|..]
  {
  }

  lemma OverlayTwice(code: Code, at: nat, s: seq<byte>, t: seq<byte>)
    requires at + |s| + |t| <= |code|
    ensures Overlay(Overlay(code, at, s), at + |s|, t) == Overlay(code, at, s + t)
  {
  }

  /** A head byte assigned before or after the bytes that follow it. */
  lemma OverlayHead(code: Code, at: nat, b: byte, s: seq<byte>)
    requires at + 1 + |s| <= |code|
    ensures Overlay(code[at := b], at + 1, s) == Overlay(code, at, [b] + s)
    ensures Overlay(code, at + 1, s)[at := b] == Overlay(code, at, [b] + s)
  {
  }

  lemma OverlayAt(code: Code, at: nat, s: seq<byte>, i: nat)
    requires at + |s| <= |code| && i < |code|
    ensures Overlay(code, at, s)[i] == if at <= i < at + |s| then s[i - at] else code[i]
  {
  }

  lemma OverlaySib(code: Code, at: nat, modrm: byte, sib: byte, s: seq<byte>, code': Code)
    requires at + 2 + |s| <= |code| == |code'|
    requires code'[..at] == code[..at] && code'[at + 2..] == code[at + 2..]
    ensures Overlay(code'[at := modrm], at + 2, s)[at + 1 := sib] == Overlay(code, at, [modrm] + [sib] + s)
  {
    var n := at + 2 + |s|;
    assert code'[n..] == code'[at + 2..][|s|..] && code[n..] == code[at + 2..][|s|..];
  }

  lemma OverlayUpdate(code: Code, at: nat, s: seq<byte>, i: nat, b: byte)
    requires at + |s| <= |code| && i < |s|
    ensures Overlay(code, at, s)[at + i := b] == Overlay(code, at, s[i := b])
  {
  }

  /** The SS bits found where the SIB byte of an instruction starting its ModR/M byte at position at would be. */
  function StaleScale(code: Code, at: nat): bits2 {
    HiField(At(code, at + 1))
  }

  lemma MemBytesShape(op: Operand, reg: bits3, stale: bits2)
    requires op.MemOpnd?
    ensures MemBytes(op, reg, stale) ==
            if HasSib(op) then [Pack(ModField(op), reg, RmField(op))] + [SibByte(op, stale)] + DispBytes(op)
            else [Pack(ModField(op), reg, RmField(op))] + DispBytes(op)
  {
    assert [Pack(ModField(op), reg, RmField(op))] + [] == [Pack(ModField(op), reg, RmField(op))];
  }

  lemma MemBytesReg(op: Operand, reg: bits3, reg': bits3, stale: bits2)
    requires op.MemOpnd?
    ensures |MemBytes(op, reg, stale)| == |MemBytes(op, reg', stale)|
    ensures MemBytes(op, reg, stale)[0 := SetMid(MemBytes(op, reg, stale)[0], reg')] == MemBytes(op, reg', stale)
  {
    PackFields(ModField(op), reg, RmField(op));
  }

  /** The buffer after a memory operand has been written: reg field and unassigned SS bits stay. */
  function Encoded(code: Code, at: nat, op: Operand): Code
    requires op.MemOpnd? && at + |MemBytes(op, 0, 0)| <= |code|
  {
    Overlay(code, at, MemBytes(op, MidField(code[at]), StaleScale(code, at)))
  }

  /** The operand locations after a memory operand whose displacement, if any, is at position at. */
  function Recorded(cur: seq<Option<nat>>, idx: nat, op: Operand, at: nat): seq<Option<nat>>
    requires |cur| == 3 && idx < 3 && op.MemOpnd?
  {
    if DispWidth(op).None? then cur else cur[idx := Some(at)]
  }

  /** Operand locations after an r/m operand written at position at. */
  function RmLocated(cur: seq<Option<nat>>, idx: nat, op: Operand, at: nat): (r: seq<Option<nat>>)
    requires |cur| == 3 && idx < 3
    ensures |r| == 3
  {
    if op.MemOpnd? then Recorded(cur, idx, op, at + |MemBytes(op, 0, 0)| - |DispBytes(op)|) else cur
  }

  function AuxLocated(cur: seq<Option<nat>>, row: OpcodeDesc, aux: Aux, ops: seq<Operand>, k: nat, at: nat)
    : (r: seq<Option<nat>>)
    requires |cur| == 3 && |ops| <= 3 && k + aux.Consumes() <= |ops|
    ensures |r| == 3
  {
    match aux
    case SlashR => RmLocated(cur, k + RmPos(row), ops[k + RmPos(row)], at)
    case SlashNum(_) => RmLocated(cur, k, ops[k], at)
    case ImmField(_) => cur[k := Some(at)]
    case RelField(_) => cur[k := Some(at)]
    case _ => cur
  }

  /** Operand locations after an instruction written at position at. */
  function RowLocated(cur: seq<Option<nat>>, row: OpcodeDesc, ops: seq<Operand>, at: nat): (r: seq<Option<nat>>)
    requires |cur| == 3 && Supplies(row, ops)
    ensures |r| == 3
  {
    var at0 := at + |row.opcode|;
    var cur0 := AuxLocated(cur, row, row.aux0, ops, row.firstOpnd, at0);
    AuxLocated(cur0, row, row.aux1, ops, row.firstOpnd + row.aux0.Consumes(),
               at0 + |AuxBytes(row, row.aux0, ops, row.firstOpnd, 0)|)
  }

  lemma SetRegister(b: byte, reg: bits3, rm: bits3)
    ensures SetMid(SetLo(SetHi(b, 3), rm), reg) == Pack(3, reg, rm)
  {
    PackFields(3, MidField(b), LoField(b));
    PackFields(3, MidField(b), rm);
  }

  lemma OverlayOne(code: Code, at: nat, b: byte)
    requires at < |code|
    ensures code[at := b] == Overlay(code, at, [b])
  {
  }

  lemma OverlayNone(code: Code, at: nat)
    requires at <= |code|
    ensures code == Overlay(code, at, [])
  {
  }

  lemma OverlayPush(code: Code, at: nat, s: seq<byte>, b: byte)
    requires at + |s| < |code|
    ensures Overlay(code, at, s)[at + |s| := b] == Overlay(code, at, s + [b])
  {
    OverlayOne(Overlay(code, at, s), at + |s|, b);
    OverlayTwice(code, at, s, [b]);
  }

  lemma RmBytesLength(op: Operand, reg: bits3, stale: bits2, reg': bits3, stale': bits2)
    ensures |RmBytes(op, reg, stale)| == |RmBytes(op, reg', stale')|
  {
  }

  lemma AuxBytesLength(row: OpcodeDesc, aux: Aux, ops: seq<Operand>, k: nat, stale: bits2, stale': bits2)
    requires k + aux.Consumes() <= |ops|
    ensures |AuxBytes(row, aux, ops, k, stale)| == |AuxBytes(row, aux, ops, k, stale')|
  {
    if aux.SlashR? {
      RmBytesLength(ops[k + RmPos(row)], HwIndex(ops[k + RegPos(row)].RegOf()), stale,
                    HwIndex(ops[k + RegPos(row)].RegOf()), stale');
    } else if aux.SlashNum? {
      RmBytesLength(ops[k], aux.digit, stale, aux.digit, stale');
    }
  }

  /** Immediates do not look at the buffer. */
  lemma ImmediateBytes(row: OpcodeDesc, aux: Aux, ops: seq<Operand>, k: nat, stale: bits2, stale': bits2)
    requires k + aux.Consumes() <= |ops| && (aux.NoAux? || aux.Immediate())
    ensures AuxBytes(row, aux, ops, k, stale) == AuxBytes(row, aux, ops, k, stale')
  {
  }

  lemma NoAuxBytes(row: OpcodeDesc, ops: seq<Operand>, k: nat, stale: bits2)
    requires k <= |ops|
    ensures AuxBytes(row, NoAux, ops, k, stale) == []
    ensures forall cur: seq<Option<nat>>, at: nat :: |cur| == 3 && |ops| <= 3 ==>
              AuxLocated(cur, row, NoAux, ops, k, at) == cur
  {
  }

  lemma StaleKept(code: Code, at: nat, s: seq<byte>)
    requires at + |s| <= |code|
    ensures StaleScale(Overlay(code, at, s), at + |s|) == StaleScale(code, at + |s|)
  {
  }

  class CodeBuffer {
    const buf: array<byte>
    var curRelOpnd: seq<Option<nat>>

    ghost predicate Valid()
      reads this
    {
      |curRelOpnd| == 3
    }

    constructor (buf: array<byte>)
      ensures this.buf == buf && Valid() && curRelOpnd == [None, None, None]
    {
      this.buf := buf;
      curRelOpnd := [None, None, None];
    }

    /** A store of 1, 2 or 4 bytes at an operand's field, whose position is recorded. */
    method StoreField(stream: nat, w: Width, v: int, idx: nat) returns (next: nat)
      requires Valid() && idx < 3 && stream + w.Count() <= buf.Length
      modifies this, buf
      ensures Valid() && curRelOpnd == old(curRelOpnd)[idx := Some(stream)]
      ensures next == stream + w.Count()
      ensures buf[..] == Overlay(old(buf[..]), stream, LittleEndian(w, v))
    {
      var s := LittleEndian(w, v);
      buf[stream] := s[0];
      if !w.W1? {
        buf[stream + 1] := s[1];
      }
      if w.W4? {
        buf[stream + 2] := s[2];
        buf[stream + 3] := s[3];
      }
      next := stream + w.Count();
      curRelOpnd := curRelOpnd[idx := Some(stream)];
      assert buf[..] == Overlay(old(buf[..]), stream, s);
    }

    /** The mod field and the displacement of an address that has a base register. */
    method EncodeDisp(modrm: nat, stream: nat, op: Operand, idx: nat) returns (next: nat)
      requires Valid() && idx < 3 && op.MemOpnd? && !op.base.NoReg?
      requires modrm < stream && stream + |DispBytes(op)| <= buf.Length
      modifies this, buf
      ensures Valid() && next == stream + |DispBytes(op)|
      ensures curRelOpnd == if DispWidth(op).None? then old(curRelOpnd) else old(curRelOpnd)[idx := Some(stream)]
      ensures buf[..] == Overlay(old(buf[..])[modrm := SetHi(old(buf[modrm]), ModField(op))], stream, DispBytes(op))
    {
      hide Pack, HiField, MidField, LoField, SetHi, LittleEndian, Overlay;
      ghost var code := buf[..];
      next := stream;
      if op.disp == 0 && HwIndex(op.base) != EBP.index {
        buf[modrm] := SetHi(buf[modrm], 0);
        assert buf[..] == code[modrm := SetHi(code[modrm], 0)];
        OverlayNone(buf[..], stream);
      } else if -127 <= op.disp <= 127 {
        buf[modrm] := SetHi(buf[modrm], 1);
        assert buf[..] == code[modrm := SetHi(code[modrm], 1)];
        next := StoreField(stream, W1, op.disp, idx);
      } else {
        buf[modrm] := SetHi(buf[modrm], 2);
        assert buf[..] == code[modrm := SetHi(code[modrm], 2)];
        next := StoreField(stream, W4, op.disp, idx);
      }
    }

    method EncodeScale(sib: nat, scale: nat)
      requires sib < buf.Length
      modifies buf
      ensures buf[..] == old(buf[..])[sib := SetHi(old(buf[sib]), ScaleField(scale, HiField(old(buf[sib]))))]
    {
      FieldsPack(buf[sib]);
      if scale == 1 || scale == 0 {
        buf[sib] := SetHi(buf[sib], 0);
      } else if scale == 2 {
        buf[sib] := SetHi(buf[sib], 1);
      } else if scale == 4 {
        buf[sib] := SetHi(buf[sib], 2);
      } else if scale == 8 {
        buf[sib] := SetHi(buf[sib], 3);
      }
    }

    /** [disp32]: no base, no index. */
    method EncodeAbsolute(stream: nat, op: Operand, idx: nat) returns (next: nat)
      requires Valid() && idx < 3 && op.MemOpnd? && op.base.NoReg? && op.index.NoReg?
      requires stream + 5 <= buf.Length
      modifies this, buf
      ensures Valid() && next == stream + 5 && curRelOpnd == old(curRelOpnd)[idx := Some(stream + 1)]
      ensures buf[..] == Encoded(old(buf[..]), stream, op)
    {
      hide Pack, HiField, MidField, LoField, SetHi, SetMid, SetLo, LittleEndian, Overlay;
      ghost var code := buf[..];
      MemBytesShape(op, MidField(code[stream]), StaleScale(code, stream));
      SetFields(buf[stream], 0, 0, 5);
      buf[stream] := SetHi(buf[stream], 0);
      buf[stream] := SetLo(buf[stream], 5);
      assert buf[..] == code[stream := Pack(0, MidField(code[stream]), 5)];
      OverlayHead(code, stream, Pack(0, MidField(code[stream]), 5), DispBytes(op));
      next := StoreField(stream + 1, W4, op.disp, idx);
    }

    /** [base + disp] without a SIB byte. */
    method EncodeBase(stream: nat, op: Operand, idx: nat) returns (next: nat)
      requires Valid() && idx < 3 && op.MemOpnd? && !op.base.NoReg? && !HasSib(op)
      requires stream + |MemBytes(op, 0, 0)| <= buf.Length
      modifies this, buf
      ensures Valid() && next == stream + |MemBytes(op, 0, 0)|
      ensures curRelOpnd == Recorded(old(curRelOpnd), idx, op, stream + 1)
      ensures buf[..] == Encoded(old(buf[..]), stream, op)
    {
      hide Pack, HiField, MidField, LoField, SetHi, SetMid, SetLo, LittleEndian, Overlay;
      ghost var code := buf[..];
      MemBytesShape(op, MidField(code[stream]), StaleScale(code, stream));
      SetFields(buf[stream], ModField(op), 0, HwIndex(op.base));
      OverlayHead(code, stream, SetHi(code[stream], ModField(op)), DispBytes(op));
      OverlayUpdate(code, stream, [SetHi(code[stream], ModField(op))] + DispBytes(op), 0,
                    Pack(ModField(op), MidField(code[stream]), HwIndex(op.base)));
      ghost var first := Pack(ModField(op), MidField(code[stream]), HwIndex(op.base));
      assert ([SetHi(code[stream], ModField(op))] + DispBytes(op))[0 := first] == [first] + DispBytes(op);
      next := EncodeDisp(stream, stream + 1, op, idx);
      buf[stream] := SetLo(buf[stream], HwIndex(op.base));
    }

    /** [index * scale + disp32]. */
    method EncodeIndexOnly(stream: nat, op: Operand, idx: nat) returns (next: nat)
      requires Valid() && idx < 3 && op.MemOpnd? && op.base.NoReg? && !op.index.NoReg?
      requires stream + 6 <= buf.Length
      modifies this, buf
      ensures Valid() && next == stream + 6 && curRelOpnd == old(curRelOpnd)[idx := Some(stream + 2)]
      ensures buf[..] == Encoded(old(buf[..]), stream, op)
    {
      hide Pack, HiField, MidField, LoField, SetHi, SetMid, SetLo, LittleEndian, Overlay;
      ghost var code := buf[..];
      MemBytesShape(op, MidField(code[stream]), StaleScale(code, stream));
      var sib := stream + 1;
      SetFields(buf[stream], 0, 0, 4);
      buf[stream] := SetLo(buf[stream], 4);
      buf[stream] := SetHi(buf[stream], 0);
      buf[sib] := SetLo(buf[sib], 5);
      ghost var code' := code[stream := Pack(0, MidField(code[stream]), 4)][sib := SetLo(code[sib], 5)];
      assert buf[..] == code';
      next := StoreField(stream + 2, W4, op.disp, idx);
      OverlayAt(code', stream + 2, DispBytes(op), sib);
      EncodeScale(sib, op.scale);
      buf[sib] := SetMid(buf[sib], HwIndex(op.index));
      SetFields(code[sib], ScaleField(op.scale, HiField(code[sib])), HwIndex(op.index), 5);
      assert buf[..] == Overlay(code', stream + 2, DispBytes(op))[sib := SibByte(op, HiField(code[sib]))];
      assert code'[stream := code'[stream]] == code';
      OverlaySib(code, stream, code'[stream], SibByte(op, HiField(code[sib])), DispBytes(op), code');
    }

    /** [base + index * scale + disp], or [ESP + disp], with a SIB byte. */
    method EncodeBaseIndex(stream: nat, op: Operand, idx: nat) returns (next: nat)
      requires Valid() && idx < 3 && op.MemOpnd? && !op.base.NoReg? && HasSib(op)
      requires stream + |MemBytes(op, 0, 0)| <= buf.Length
      modifies this, buf
      ensures Valid() && next == stream + |MemBytes(op, 0, 0)|
      ensures curRelOpnd == Recorded(old(curRelOpnd), idx, op, stream + 2)
      ensures buf[..] == Encoded(old(buf[..]), stream, op)
    {
      hide Pack, HiField, MidField, LoField, SetHi, SetMid, SetLo, LittleEndian, Overlay;
      ghost var code := buf[..];
      MemBytesShape(op, MidField(code[stream]), StaleScale(code, stream));
      var sib := stream + 1;
      SetFields(buf[stream], ModField(op), 0, 4);
      buf[stream] := SetLo(buf[stream], 4);
      ghost var code' := code[stream := Pack(ModField(op), MidField(code[stream]), 4)];
      next := EncodeDisp(stream, stream + 2, op, idx);
      assert code[stream := SetLo(code[stream], 4)][stream := code'[stream]] == code';
      OverlayAt(code', stream + 2, DispBytes(op), sib);
      if op.index.NoReg? {
        SetFields(code[sib], 0, 4, HwIndex(op.base));
        buf[sib] := SetHi(buf[sib], 0);
        buf[sib] := SetMid(buf[sib], 4);
      } else {
        SetFields(code[sib], ScaleField(op.scale, HiField(code[sib])), HwIndex(op.index), HwIndex(op.base));
        EncodeScale(sib, op.scale);
        buf[sib] := SetMid(buf[sib], HwIndex(op.index));
      }
      buf[sib] := SetLo(buf[sib], HwIndex(op.base));
      assert buf[..] == Overlay(code', stream + 2, DispBytes(op))[sib := SibByte(op, HiField(code[sib]))];
      OverlaySib(code, stream, code'[stream], SibByte(op, HiField(code[sib])), DispBytes(op), code);
    }

    /** encodeModRM: everything but the reg field, which keeps its bits for the caller to assign. */
    method EncodeModRM(stream: nat, op: Operand, idx: nat) returns (next: nat)
      requires Valid() && idx < 3 && op.MemOpnd?
      requires stream + |MemBytes(op, 0, 0)| <= buf.Length
      modifies this, buf
      ensures Valid() && next == stream + |MemBytes(op, 0, 0)|
      ensures curRelOpnd == Recorded(old(curRelOpnd), idx, op, next - |DispBytes(op)|)
      ensures buf[..] == Encoded(old(buf[..]), stream, op)
    {
      if op.base.NoReg? && op.index.NoReg? {
        next := EncodeAbsolute(stream, op, idx);
      } else if op.index.NoReg? && HwIndex(op.base) != ESP.index {
        next := EncodeBase(stream, op, idx);
      } else if op.base.NoReg? {
        next := EncodeIndexOnly(stream, op, idx);
      } else {
        next := EncodeBaseIndex(stream, op, idx);
      }
    }

    /** The r/m operand, then the reg field. */
    method EncodeRm(stream: nat, op: Operand, reg: bits3, idx: nat) returns (next: nat)
      requires Valid() && idx < 3
      requires stream + |RmBytes(op, 0, 0)| <= buf.Length
      modifies this, buf
      ensures Valid() && next == stream + |RmBytes(op, 0, 0)|
      ensures curRelOpnd == RmLocated(old(curRelOpnd), idx, op, stream)
      ensures buf[..] == Overlay(old(buf[..]), stream, RmBytes(op, reg, StaleScale(old(buf[..]), stream)))
    {
      hide Pack, HiField, MidField, LoField, SetHi, SetMid, SetLo, LittleEndian, Overlay;
      ghost var code, stale := buf[..], StaleScale(buf[..], stream);
      if op.MemOpnd? {
        ghost var s := MemBytes(op, MidField(code[stream]), stale);
        next := EncodeModRM(stream, op, idx);
        MemBytesReg(op, MidField(code[stream]), reg, stale);
        OverlayAt(code, stream, s, stream);
        OverlayUpdate(code, stream, s, 0, SetMid(s[0], reg));
        buf[stream] := SetMid(buf[stream], reg);
      } else {
        SetRegister(code[stream], reg, HwIndex(op.RegOf()));
        buf[stream] := SetHi(buf[stream], 3);
        buf[stream] := SetLo(buf[stream], HwIndex(op.RegOf()));
        next := stream + 1;
        buf[stream] := SetMid(buf[stream], reg);
        OverlayOne(code, stream, Pack(3, reg, HwIndex(op.RegOf())));
      }
    }

    /** encode_aux: one operand-dependent element; k is the position of its first operand. */
    method EncodeAux(row: OpcodeDesc, aux: Aux, ops: seq<Operand>, k: nat, stream: nat) returns (next: nat, k': nat)
      requires Valid() && |ops| <= 3 && k + aux.Consumes() <= |ops|
      requires stream + |AuxBytes(row, aux, ops, k, 0)| <= buf.Length
      modifies this, buf
      ensures Valid() && k' == k + aux.Consumes()
      ensures next == stream + |AuxBytes(row, aux, ops, k, 0)|
      ensures curRelOpnd == AuxLocated(old(curRelOpnd), row, aux, ops, k, stream)
      ensures buf[..] == Overlay(old(buf[..]), stream, AuxBytes(row, aux, ops, k, StaleScale(old(buf[..]), stream)))
    {
      hide Pack, HiField, LittleEndian, RmBytes, Overlay;
      ghost var code := buf[..];
      next, k' := stream, k + aux.Consumes();
      match aux
      case NoAux =>
        OverlayNone(code, stream);
      case SlashR =>
        var memidx := k + if Mem in row.opnds[0].kinds then 0 else 1;
        var regidx := k + if Mem in row.opnds[0].kinds then 1 else 0;
        RmBytesLength(ops[memidx], HwIndex(ops[regidx].RegOf()), 0, 0, 0);
        RmBytesLength(ops[memidx], HwIndex(ops[regidx].RegOf()), StaleScale(code, stream), 0, 0);
        next := EncodeRm(stream, ops[memidx], HwIndex(ops[regidx].RegOf()), memidx);
      case SlashNum(digit) =>
        RmBytesLength(ops[k], digit, 0, 0, 0);
        RmBytesLength(ops[k], digit, StaleScale(code, stream), 0, 0);
        next := EncodeRm(stream, ops[k], digit, k);
      case ImmField(w) =>
        next := StoreField(stream, w, ops[k].ImmOf(), k);
      case RelField(w) =>
        next := StoreField(stream, w, ops[k].ImmOf(), k);
      case PlusReg(_, base) =>
        buf[stream] := (base + HwIndex(ops[k].RegOf())) % 256;
        next := stream + 1;
        OverlayOne(code, stream, (base + HwIndex(ops[k].RegOf())) % 256);
      case PlusI(base) =>
        buf[stream] := (base + HwIndex(ops[k].RegOf())) % 256;
        next := stream + 1;
        OverlayOne(code, stream, (base + HwIndex(ops[k].RegOf())) % 256);
    }

    method CopyOpcode(opcode: seq<byte>, stream: nat) returns (next: nat)
      requires stream + |opcode| <= buf.Length
      modifies buf
      ensures next == stream + |opcode|
      ensures buf[..] == Overlay(old(buf[..]), stream, opcode)
    {
      hide Overlay;
      OverlayNone(buf[..], stream);
      for i := 0 to |opcode|
        invariant buf[..] == Overlay(old(buf[..]), stream, opcode[..i])
      {
        OverlayPush(old(buf[..]), stream, opcode[..i], opcode[i]);
        buf[stream + i] := opcode[i];
        assert opcode[..i + 1] == opcode[..i] + [opcode[i]];
      }
      next := stream + |opcode|;
      assert opcode[..|opcode|] == opcode;
    }

    /** The bytes of an instruction, once its row is known. */
    method EncodeRow(row: OpcodeDesc, ops: seq<Operand>, stream: nat) returns (next: nat)
      requires Valid() && Supplies(row, ops)
      requires stream + |RowBytes(row, ops, 0)| <= buf.Length
      modifies this, buf
      ensures Valid() && next == stream + |RowBytes(row, ops, 0)|
      ensures curRelOpnd == RowLocated(old(curRelOpnd), row, ops, stream)
      ensures buf[..] == Overlay(old(buf[..]), stream,
                                 RowBytes(row, ops, StaleScale(old(buf[..]), stream + |row.opcode|)))
    {
      hide HiField, AuxBytes, AuxLocated, Overlay;
      ghost var code := buf[..];
      ghost var stale := StaleScale(code, stream + |row.opcode|);
      ghost var a := AuxBytes(row, row.aux0, ops, row.firstOpnd, stale);
      ghost var b := AuxBytes(row, row.aux1, ops, row.firstOpnd + row.aux0.Consumes(), stale);
      AuxBytesLength(row, row.aux0, ops, row.firstOpnd, stale, 0);
      AuxBytesLength(row, row.aux1, ops, row.firstOpnd + row.aux0.Consumes(), stale, 0);
      OverlayTwice(code, stream, row.opcode, a);
      OverlayTwice(code, stream, row.opcode + a, b);
      NoAuxBytes(row, ops, row.firstOpnd + row.aux0.Consumes(), stale);
      NoAuxBytes(row, ops, row.firstOpnd, stale);
      assert a == [] ==> row.opcode + a == row.opcode;
      assert b == [] ==> row.opcode + a + b == row.opcode + a;
      next := CopyOpcode(row.opcode, stream);
      var k := row.firstOpnd;
      StaleKept(code, stream, row.opcode);
      if !row.aux0.NoAux? {
        next, k := EncodeAux(row, row.aux0, ops, k, next);
        if !row.aux1.NoAux? {
          ghost var stale1 := StaleScale(buf[..], next);
          ImmediateBytes(row, row.aux1, ops, k, stale1, stale);
          next, k := EncodeAux(row, row.aux1, ops, k, next);
        }
      }
    }

    /** EncoderBase::encode: selects a row and writes the instruction; room in the buffer is the caller's concern. */
    method Encode(t: Tables, stream: nat, mn: nat, opnds: Operands) returns (next: nat)
      requires Valid() && opnds.Valid() && Encodes(t, mn, opnds.items)
      requires stream + |RowBytes(ChosenRow(t, mn, opnds.items), opnds.items, 0)| <= buf.Length
      modifies this, buf
      ensures Valid()
      ensures var row := ChosenRow(t, mn, opnds.items);
              && next == stream + |RowBytes(row, opnds.items, 0)|
              && curRelOpnd == RowLocated(old(curRelOpnd), row, opnds.items, stream)
              && buf[..] == Overlay(old(buf[..]), stream,
                                    RowBytes(row, opnds.items, StaleScale(old(buf[..]), stream + |row.opcode|)))
    {
      hide RowBytes, RowLocated, Overlay, StaleScale, Select, Supplies, Shapes, Hash;
      var i := Lookup(t.opcodes[mn], t.maps[mn], opnds);
      next := EncodeRow(t.opcodes[mn][i.value], opnds.items, stream);
    }
  }
}
