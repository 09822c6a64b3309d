/**
 * Decoding what the encoder wrote: for every row that describes its own operands,
 * every fitting operand list and every surrounding code, the decoder finds the same
 * mnemonic, row, length and operands.
 */
module RoundTrip {
  import opened Basics
  import opened X86
  import opened Rows
  import opened ModRM
  import opened Encoder
  import opened Decoder
  import opened OperandHash
  import TableBuilder

  // ----- rows that describe their own operands -----

  predicate RegDesc(d: OpndDesc) {
    (d.kinds == {GPReg} && d.size != Size64 && d.size != NullSize) || (d.kinds == {XMMReg} && d.size != NullSize)
  }

  predicate RmDesc(d: OpndDesc) {
    RegDesc(d.(kinds := d.kinds - {Mem})) || (d.kinds == {Mem} && d.size != NullSize)
  }

  predicate ImmDesc(d: OpndDesc, w: Width) {
    d.kinds == {Imm} && d.size == w.ImmSize()
  }

  /** The element at operand position k is in keeping with the operand descriptions. */
  predicate Describing(row: OpcodeDesc, aux: Aux, k: nat) {
    k + aux.Consumes() <= 3 &&
    match aux
    case NoAux => true
    case SlashR => k == 0 && RmDesc(row.opnds[RmPos(row)]) && RegDesc(row.opnds[RegPos(row)])
    case SlashNum(_) => RmDesc(row.opnds[k])
    case ImmField(w) => ImmDesc(row.opnds[k], w)
    case RelField(w) => ImmDesc(row.opnds[k], w)
    case PlusReg(w, base) => row.opnds[k].kinds == {GPReg} && row.opnds[k].size == w.ImmSize() && base <= 248
    case PlusI(_) => false
  }

  predicate PrefixByte(b: byte) {
    b in {0xF0, 0xF2, 0xF3, 0x2E, 0x36, 0x3E, 0x26, 0x64, 0x65, 0x67}
  }

  /** The first byte cannot be taken for a prefix. */
  predicate StartsClean(row: OpcodeDesc) {
    if row.opcode == [] then
      (row.aux0.PlusReg? || row.aux0.PlusI?) &&
      forall b: byte :: row.aux0.base <= b <= row.aux0.base + 7 ==> !PrefixByte(b)
    else
      !PrefixByte(row.opcode[0]) ||
      (row.opcode[0] in {0xF2, 0xF3} && |row.opcode| > 1 && row.opcode[1] == 0x0F)
  }

  /** What finding the row again takes: it does not begin like a prefix, and adding a register does not overflow. */
  predicate Legible(row: OpcodeDesc) {
    Searchable(row) && StartsClean(row) && (row.aux0.PlusReg? || row.aux0.PlusI? ==> row.aux0.base <= 248)
  }

  /** The number of operands that the elements encode. */
  function EncodedCount(row: OpcodeDesc): nat {
    row.aux0.Consumes() + row.aux1.Consumes()
  }

  /** The elements describe the operands they encode, from the first on; fixed operands may follow. */
  predicate Described(row: OpcodeDesc) {
    && row.firstOpnd == 0
    && Searchable(row)
    && |row.roles| >= EncodedCount(row)
    && Describing(row, row.aux0, 0)
    && Describing(row, row.aux1, row.aux0.Consumes())
    && StartsClean(row)
  }

  /** The elements account for each operand. */
  predicate Explicit(row: OpcodeDesc) {
    Described(row) && |row.roles| == EncodedCount(row)
  }

  lemma DescribedLegible(row: OpcodeDesc)
    requires Described(row)
    ensures Legible(row) && Yields(row.aux0) == row.aux0.Consumes() && Yields(row.aux1) == row.aux1.Consumes()
  {
  }

  /** An operand the encoder is meant for: 32-bit addressing, a register, or an immediate of up to 32 bits. */
  predicate Proper(op: Operand) {
    match op
    case MemOpnd(_, _, _, _, _) => Addressing(op)
    case ImmOpnd(s, _) => s == Size8 || s == Size16 || s == Size32
    case RegOpnd(r) => r.Reg? && r.kind in {GPReg, SReg, FPReg, XMMReg, OtherReg}
    case NoOpnd => false
  }

  predicate AllProper(ops: seq<Operand>) {
    forall i :: 0 <= i < |ops| ==> Proper(ops[i])
  }

  predicate ProperUpTo(ops: seq<Operand>, n: nat) {
    n <= |ops| && forall i :: 0 <= i < n ==> Proper(ops[i])
  }

  /** What a proper operand needs to survive: no ESP index, an immediate in the signed range of its size. */
  predicate Sound(op: Operand) {
    match op
    case MemOpnd(_, _, index, _, _) => index != ESP
    case ImmOpnd(s, v) =>
      if s == Size8 then InSignedRange(W1, v) else if s == Size16 then InSignedRange(W2, v) else InSignedRange(W4, v)
    case _ => true
  }

  /**
   * A decoded operand has the location and size of the one encoded.  It is that operand up to the scale
   * convention exactly when it is sound, and that very operand exactly when its scale is kept as well.
   */
  predicate RecoveredAs(op: Operand, got: Operand) {
    ShapeOf(got) == ShapeOf(op) && (got == Seen(op) <==> Sound(op)) && (got == op <==> Sound(op) && ScaleKept(op))
  }

  predicate Recovered(ops: seq<Operand>, got: seq<Operand>) {
    |got| == |ops| && forall i :: 0 <= i < |ops| ==> RecoveredAs(ops[i], got[i])
  }

  lemma RecoveredJoin(a: seq<Operand>, x: seq<Operand>, b: seq<Operand>, y: seq<Operand>)
    requires Recovered(a, x) && Recovered(b, y)
    ensures Recovered(a + b, x + y)
  {
    hide RecoveredAs;
  }

  lemma FitsReg(d: OpndDesc, op: Operand)
    requires RegDesc(d) && StrictFits(d, op) && Proper(op)
    ensures op.RegOpnd? && op.reg.Reg? && op.RegOf() == op.reg == FieldReg(d, op.reg.index)
  {
  }

  lemma FitsRm(d: OpndDesc, op: Operand)
    requires RmDesc(d) && StrictFits(d, op) && Proper(op)
    ensures RmOperand(d, op)
  {
    if !op.MemOpnd? {
      var d' := d.(kinds := d.kinds - {Mem});
      assert op.Kind() in d.kinds && op.Kind() != Mem;
      assert op.Kind() in d'.kinds;
      FitsReg(d', op);
    }
  }

  /** Round trip of a register field. */
  lemma RegRecovered(d: OpndDesc, op: Operand)
    requires RegDesc(d) && StrictFits(d, op) && Proper(op)
    ensures op.RegOpnd? && op.reg.Reg? && HwIndex(op.RegOf()) == op.reg.index
    ensures RecoveredAs(op, RegOpnd(FieldReg(d, op.reg.index)))
  {
    FitsReg(d, op);
  }

  /** Round trip of the r/m position. */
  lemma RmRecovered(d: OpndDesc, op: Operand, reg: bits3, stale: bits2, code: Code, at: nat)
    requires RmDesc(d) && StrictFits(d, op) && Proper(op)
    requires Holds(code, at, RmBytes(op, reg, stale))
    ensures MidField(At(code, at)) == reg && RmLength(code, at) == |RmBytes(op, reg, stale)|
    ensures RecoveredAs(op, ReadRm(d, code, at))
  {
    hide RmBytes, ReadRm, RmLength, Seen, ScaleKept, Holds, MidField, At, RmDesc, StrictFits;
    FitsRm(d, op);
    RmRoundTrip(op, d, reg, stale, code, at);
  }

  /** Round trip of an immediate. */
  lemma ImmRecovered(d: OpndDesc, op: Operand, w: Width, code: Code, at: nat)
    requires ImmDesc(d, w) && StrictFits(d, op) && Proper(op) && Holds(code, at, LittleEndian(w, op.ImmOf()))
    ensures RecoveredAs(op, ImmOpnd(w.ImmSize(), ReadSigned(code, at, w)))
  {
    hide LittleEndian, ReadSigned, Holds;
    assert op.ImmOpnd?;
    ReadBack(code, at, w, op.imm);
  }

  /** Round trip of one element. */
  lemma AuxRoundTrip(row: OpcodeDesc, aux: Aux, ops: seq<Operand>, k: nat, stale: bits2, code: Code, at: nat)
    requires Describing(row, aux, k) && |row.roles| == |ops| <= 3 && k + aux.Consumes() <= |ops|
    requires StrictMatch(row, ops) && ProperUpTo(ops, k + aux.Consumes())
    requires Holds(code, at, AuxBytes(row, aux, ops, k, stale))
    ensures AuxAccepts(aux, code, at)
    ensures AuxLength(aux, code, at) == |AuxBytes(row, aux, ops, k, stale)|
    ensures Recovered(ops[k..k + aux.Consumes()], AuxOperands(row, aux, code, at, k))
  {
    hide RmBytes, ReadRm, RmLength, RecoveredAs, Holds, MidField, ReadSigned, LittleEndian, FieldReg, StrictFits,
      Proper, RegDesc, RmDesc;
    match aux
    case NoAux =>
    case SlashR =>
      var m, r := RmPos(row), RegPos(row);
      RegRecovered(row.opnds[r], ops[r]);
      RmRecovered(row.opnds[m], ops[m], ops[r].reg.index, stale, code, at);
    case SlashNum(digit) =>
      RmRecovered(row.opnds[k], ops[k], digit, stale, code, at);
    case ImmField(w) =>
      ImmRecovered(row.opnds[k], ops[k], w, code, at);
    case RelField(w) =>
      ImmRecovered(row.opnds[k], ops[k], w, code, at);
    case PlusReg(w, base) =>
      PlusRecovered(row.opnds[k], ops[k], w, base, code, at);
  }

  /** Round trip of a register added to the opcode byte. */
  lemma PlusRecovered(d: OpndDesc, op: Operand, w: Width, base: byte, code: Code, at: nat)
    requires d.kinds == {GPReg} && d.size == w.ImmSize() && base <= 248 && StrictFits(d, op) && Proper(op)
    requires Holds(code, at, [(base + HwIndex(op.RegOf())) % 256])
    ensures base <= At(code, at) <= base + 7
    ensures RecoveredAs(op, RegOpnd(Reg(GPReg, w.ImmSize(), At(code, at) - base)))
  {
    HoldsAt(code, at, [(base + HwIndex(op.RegOf())) % 256], 0);
  }

  lemma DescribedSupplies(row: OpcodeDesc, ops: seq<Operand>)
    requires Described(row) && LooseMatch(row, ops)
    ensures Supplies(row, ops)
  {
  }

  lemma OpcodeHeld(row: OpcodeDesc, s: seq<byte>, code: Code, at: nat)
    requires Holds(code, at, row.opcode + s)
    ensures OpcodeMatches(row, code, at)
  {
    HoldsSplit(code, at, row.opcode, s);
    forall i | 0 <= i < |row.opcode| ensures At(code, at + i) == row.opcode[i] {
      HoldsAt(code, at, row.opcode, i);
    }
  }

  /** No byte of an instruction is taken for a prefix. */
  lemma NoPrefix(row: OpcodeDesc, code: Code, at: nat)
    requires StartsClean(row) && RowAccepts(row, code, at)
    ensures PrefixEnd(code, at) == at && !RepeatsGroup(code, at)
  {
    if row.opcode == [] {
      assert AuxAccepts(row.aux0, code, at + 0);
      assert !PrefixByte(At(code, at));
    } else {
      assert At(code, at + 0) == row.opcode[0];
      if |row.opcode| > 1 {
        assert At(code, at + 1) == row.opcode[1];
      }
    }
    assert PrefixGroup(code, at).None?;
  }

  // ----- mnemonic, row and length, whatever the operands -----

  /** The length and the reg field of any operand in the r/m position. */
  lemma RmLengthBack(op: Operand, reg: bits3, stale: bits2, code: Code, at: nat)
    requires Holds(code, at, RmBytes(op, reg, stale))
    ensures MidField(At(code, at)) == reg && RmLength(code, at) == |RmBytes(op, reg, stale)|
  {
    hide Pack, HiField, MidField, LoField, LittleEndian, At, Holds, SibByte, DispBytes;
    if op.MemOpnd? {
      MemLength(op, reg, stale);
      MemPieces(op, reg, stale, code, at);
      PackFields(ModField(op), reg, RmField(op));
      WidthReadBack(op, stale, At(code, at + 1));
    } else {
      HoldsAt(code, at, RmBytes(op, reg, stale), 0);
      PackFields(3, reg, HwIndex(op.RegOf()));
    }
  }

  lemma AuxLengthBack(row: OpcodeDesc, aux: Aux, ops: seq<Operand>, k: nat, stale: bits2, code: Code, at: nat)
    requires k + aux.Consumes() <= |ops| && (aux.PlusReg? || aux.PlusI? ==> aux.base <= 248)
    requires Holds(code, at, AuxBytes(row, aux, ops, k, stale))
    ensures AuxAccepts(aux, code, at) && AuxLength(aux, code, at) == |AuxBytes(row, aux, ops, k, stale)|
  {
    hide RmBytes, RmLength, MidField, LittleEndian, At, Holds;
    if aux.SlashR? {
      RmLengthBack(ops[k + RmPos(row)], HwIndex(ops[k + RegPos(row)].RegOf()), stale, code, at);
    } else if aux.SlashNum? {
      RmLengthBack(ops[k], aux.digit, stale, code, at);
    } else if aux.PlusReg? || aux.PlusI? {
      HoldsAt(code, at, [(aux.base + HwIndex(ops[k].RegOf())) % 256], 0);
    }
  }

  /** Every instruction of a legible row matches the row, in its whole length and without prefixes. */
  lemma LengthRoundTrip(row: OpcodeDesc, ops: seq<Operand>, stale: bits2, code: Code, at: nat)
    requires Legible(row) && Supplies(row, ops)
    requires Holds(code, at, RowBytes(row, ops, stale))
    ensures RowAccepts(row, code, at) && RowLength(row, code, at) == |RowBytes(row, ops, stale)|
    ensures PrefixEnd(code, at) == at && !RepeatsGroup(code, at)
  {
    hide AuxBytes, AuxAccepts, AuxLength, PrefixGroup, PrefixEnd, At, RepeatsGroup, Holds, OpcodeMatches, StartsClean;
    var k, n := row.firstOpnd, row.aux0.Consumes();
    var a := AuxBytes(row, row.aux0, ops, k, stale);
    var b := AuxBytes(row, row.aux1, ops, k + n, stale);
    assert row.opcode + a + b == row.opcode + (a + b);
    OpcodeHeld(row, a + b, code, at);
    HoldsSplit(code, at, row.opcode + a, b);
    HoldsSplit(code, at, row.opcode, a);
    AuxLengthBack(row, row.aux0, ops, k, stale, code, at + |row.opcode|);
    AuxLengthBack(row, row.aux1, ops, k + n, stale, code, at + |row.opcode| + |a|);
    NoPrefix(row, code, at);
  }

  /** A register added to an opcode byte, general or of the FPU stack, can be read off it. */
  lemma AddedReadBack(row: OpcodeDesc, ops: seq<Operand>, stale: bits2, code: Code, at: nat)
    requires Supplies(row, ops) && (row.aux0.PlusReg? || row.aux0.PlusI?) && row.aux0.base <= 248
    requires Holds(code, at, RowBytes(row, ops, stale))
    ensures At(code, at + |row.opcode|) - row.aux0.base == HwIndex(ops[row.firstOpnd].RegOf())
  {
    hide Holds, At;
    var a := AuxBytes(row, row.aux0, ops, row.firstOpnd, stale);
    HoldsSplit(code, at, row.opcode + a, AuxBytes(row, row.aux1, ops, row.firstOpnd + row.aux0.Consumes(), stale));
    HoldsSplit(code, at, row.opcode, a);
    HoldsAt(code, at + |row.opcode|, a, 0);
  }

  // ----- where fields are -----

  /** The field an element writes for operand idx, with its value: a displacement or an immediate. */
  function FieldOf(row: OpcodeDesc, aux: Aux, ops: seq<Operand>, k: nat, idx: nat): Option<(Width, int)>
    requires k + aux.Consumes() <= |ops| && idx < |ops|
  {
    var rm := if aux.SlashR? then Some(k + RmPos(row)) else if aux.SlashNum? then Some(k) else None;
    if rm == Some(idx) && ops[idx].MemOpnd? && DispWidth(ops[idx]).Some? then
      Some((DispWidth(ops[idx]).value, ops[idx].disp as int))
    else if aux.Immediate() && k == idx then Some((aux.width, ops[idx].ImmOf()))
    else None
  }

  /** A recorded location is where the operand's field lies; other locations are left alone. */
  predicate LocatedIn(code: Code, from: nat, to: nat, was: Option<nat>, now: Option<nat>, field: Option<(Width, int)>) {
    match field
    case None => now == was
    case Some((w, v)) =>
      now.Some? && from <= now.value && now.value + w.Count() <= to && Holds(code, now.value, LittleEndian(w, v))
  }

  lemma AuxLocations(row: OpcodeDesc, aux: Aux, ops: seq<Operand>, k: nat, cur: seq<Option<nat>>, stale: bits2,
                     code: Code, at: nat, idx: nat)
    requires |cur| == 3 && |ops| <= 3 && k + aux.Consumes() <= |ops| && idx < |ops|
    requires Holds(code, at, AuxBytes(row, aux, ops, k, stale))
    ensures LocatedIn(code, at, at + |AuxBytes(row, aux, ops, k, stale)|, cur[idx],
                      AuxLocated(cur, row, aux, ops, k, at)[idx], FieldOf(row, aux, ops, k, idx))
  {
    hide LittleEndian, Holds, RmBytes, LocatedIn, RmLocated, DispWidth;
    if aux.SlashR? {
      var i := k + RmPos(row);
      RmLocates(ops[i], i, HwIndex(ops[k + RegPos(row)].RegOf()), cur, stale, code, at, idx);
    } else if aux.SlashNum? {
      RmLocates(ops[k], k, aux.digit, cur, stale, code, at, idx);
    } else if aux.Immediate() {
      ImmLocates(aux, ops, k, cur, code, at, idx);
    } else {
      NoneLocated(code, at, at + |AuxBytes(row, aux, ops, k, stale)|, cur[idx]);
    }
  }

  lemma NoneLocated(code: Code, from: nat, to: nat, was: Option<nat>)
    ensures LocatedIn(code, from, to, was, was, None)
  {
  }

  lemma ImmLocates(aux: Aux, ops: seq<Operand>, k: nat, cur: seq<Option<nat>>, code: Code, at: nat, idx: nat)
    requires |cur| == 3 && |ops| <= 3 && k < |ops| && idx < |ops| && aux.Immediate()
    requires Holds(code, at, LittleEndian(aux.width, ops[k].ImmOf()))
    ensures LocatedIn(code, at, at + aux.width.Count(), cur[idx], cur[k := Some(at)][idx],
                      if k == idx then Some((aux.width, ops[idx].ImmOf())) else None)
  {
    hide LittleEndian, Holds;
  }

  lemma RmLocates(op: Operand, i: nat, reg: bits3, cur: seq<Option<nat>>, stale: bits2, code: Code, at: nat, idx: nat)
    requires |cur| == 3 && i < 3 && idx < 3 && Holds(code, at, RmBytes(op, reg, stale))
    ensures LocatedIn(code, at, at + |RmBytes(op, reg, stale)|, cur[idx], RmLocated(cur, i, op, at)[idx],
                      if i == idx && op.MemOpnd? && DispWidth(op).Some? then
                        Some((DispWidth(op).value, op.disp as int)) else None)
  {
    hide LittleEndian, Holds, Pack, SibByte;
    RmLocation(op, reg, stale, code, at);
  }

  lemma RmLocation(op: Operand, reg: bits3, stale: bits2, code: Code, at: nat)
    requires Holds(code, at, RmBytes(op, reg, stale))
    ensures op.MemOpnd? ==>
              var p := at + |MemBytes(op, 0, 0)| - |DispBytes(op)|;
              Holds(code, p, DispBytes(op)) && p + |DispBytes(op)| == at + |RmBytes(op, reg, stale)|
  {
    if op.MemOpnd? {
      MemLength(op, reg, stale);
      MemLength(op, 0, 0);
      MemPieces(op, reg, stale, code, at);
    }
  }

  /** After an instruction has been written, curRelOpnd points at each displacement and immediate it holds. */
  lemma FieldsLocated(row: OpcodeDesc, ops: seq<Operand>, cur: seq<Option<nat>>, stale: bits2, code: Code, at: nat,
                      idx: nat)
    requires Supplies(row, ops) && |cur| == 3 && idx < |ops| && Holds(code, at, RowBytes(row, ops, stale))
    ensures var k := row.firstOpnd;
            var f0 := FieldOf(row, row.aux0, ops, k, idx);
            var f1 := FieldOf(row, row.aux1, ops, k + row.aux0.Consumes(), idx);
            LocatedIn(code, at + |row.opcode|, at + |RowBytes(row, ops, stale)|, cur[idx],
                      RowLocated(cur, row, ops, at)[idx], if f1.Some? then f1 else f0)
  {
    hide AuxBytes, AuxLocated, FieldOf, Holds, LittleEndian;
    var k, k1, at0 := row.firstOpnd, row.firstOpnd + row.aux0.Consumes(), at + |row.opcode|;
    var a, b := AuxBytes(row, row.aux0, ops, k, stale), AuxBytes(row, row.aux1, ops, k1, stale);
    HoldsSplit(code, at, row.opcode + a, b);
    HoldsSplit(code, at, row.opcode, a);
    AuxBytesLength(row, row.aux0, ops, k, stale, 0);
    AuxLocations(row, row.aux0, ops, k, cur, stale, code, at0, idx);
    AuxLocations(row, row.aux1, ops, k1, AuxLocated(cur, row, row.aux0, ops, k, at0), stale, code, at0 + |a|, idx);
  }

  // ----- operands -----

  /** Round trip of the operands that a row encodes, one by one. */
  lemma RowRoundTrip(row: OpcodeDesc, ops: seq<Operand>, stale: bits2, code: Code, at: nat)
    requires Described(row) && StrictMatch(row, ops) && ProperUpTo(ops, EncodedCount(row)) && Supplies(row, ops)
    requires Holds(code, at, RowBytes(row, ops, stale))
    ensures RowAccepts(row, code, at)
    ensures RowLength(row, code, at) == |RowBytes(row, ops, stale)|
    ensures Recovered(ops[..EncodedCount(row)], RowOperands(row, code, at))
    ensures PrefixEnd(code, at) == at && !RepeatsGroup(code, at)
  {
    hide AuxBytes, AuxAccepts, AuxLength, AuxOperands, Describing, PrefixGroup, PrefixEnd, At, RepeatsGroup,
      Holds, OpcodeMatches, StartsClean, Proper, Recovered, StrictFits;
    var n := row.aux0.Consumes();
    var a := AuxBytes(row, row.aux0, ops, 0, stale);
    var b := AuxBytes(row, row.aux1, ops, n, stale);
    assert row.opcode + a + b == row.opcode + (a + b);
    OpcodeHeld(row, a + b, code, at);
    HoldsSplit(code, at, row.opcode + a, b);
    HoldsSplit(code, at, row.opcode, a);
    AuxRoundTrip(row, row.aux0, ops, 0, stale, code, at + |row.opcode|);
    AuxRoundTrip(row, row.aux1, ops, n, stale, code, at + |row.opcode| + |a|);
    assert ops[..EncodedCount(row)] == ops[0..n] + ops[n..n + row.aux1.Consumes()];
    assert Yields(row.aux0) == n by {
      assert Describing(row, row.aux0, 0);
      NotPlusI(row, row.aux0, 0);
    }
    RecoveredJoin(ops[0..n], AuxOperands(row, row.aux0, code, at + |row.opcode|, 0),
                  ops[n..n + row.aux1.Consumes()], AuxOperands(row, row.aux1, code, at + |row.opcode| + |a|, n));
    NoPrefix(row, code, at);
  }

  lemma NotPlusI(row: OpcodeDesc, aux: Aux, k: nat)
    requires Describing(row, aux, k)
    ensures !aux.PlusI?
  {
  }

  // ----- operands of other sizes than the row's -----

  /** The operand with the size a row describes: all that the bytes of a row can tell about it. */
  function Resized(d: OpndDesc, op: Operand): Operand {
    match op
    case NoOpnd => NoOpnd
    case RegOpnd(r) => if r.NoReg? then op else RegOpnd(r.(size := d.size))
    case ImmOpnd(_, v) => ImmOpnd(d.size, v)
    case MemOpnd(_, _, _, _, _) => op.(memSize := d.size)
  }

  function ResizeAll(row: OpcodeDesc, ops: seq<Operand>): (r: seq<Operand>)
    requires |ops| <= 3
    ensures |r| == |ops| && forall i :: 0 <= i < |r| ==> r[i] == Resized(row.opnds[i], ops[i])
  {
    seq(|ops|, i requires 0 <= i < |ops| => Resized(row.opnds[i], ops[i]))
  }

  lemma ResizedFits(d: OpndDesc, op: Operand)
    requires KindFits(d, op) && Proper(op)
    ensures StrictFits(d, Resized(d, op))
    ensures (Imm in d.kinds ==> d.size in {Size8, Size16, Size32}) ==> Proper(Resized(d, op))
  {
  }

  /** Where a row encodes an immediate, it says of which size. */
  lemma ImmDescribed(row: OpcodeDesc, i: nat)
    requires Described(row) && i < EncodedCount(row) && Imm in row.opnds[i].kinds
    ensures row.opnds[i].size in {Size8, Size16, Size32}
  {
    assert Imm in row.opnds[i].kinds - {Mem};
  }

  lemma ResizedMatch(row: OpcodeDesc, ops: seq<Operand>)
    requires Described(row) && LooseMatch(row, ops) && AllProper(ops)
    ensures StrictMatch(row, ResizeAll(row, ops)) && ProperUpTo(ResizeAll(row, ops), EncodedCount(row))
  {
    hide Describing, StartsClean, Searchable, StrictFits, Proper, KindFits, Resized;
    forall i | 0 <= i < |ops|
      ensures StrictFits(row.opnds[i], Resized(row.opnds[i], ops[i]))
      ensures i < EncodedCount(row) ==> Proper(Resized(row.opnds[i], ops[i]))
    {
      if i < EncodedCount(row) && Imm in row.opnds[i].kinds {
        ImmDescribed(row, i);
      }
      ResizedFits(row.opnds[i], ops[i]);
    }
  }

  lemma ResizedOperand(d: OpndDesc, op: Operand, reg: bits3, stale: bits2)
    ensures RmBytes(Resized(d, op), reg, stale) == RmBytes(op, reg, stale)
    ensures HwIndex(Resized(d, op).RegOf()) == HwIndex(op.RegOf()) && Resized(d, op).ImmOf() == op.ImmOf()
  {
  }

  /** The bytes of an element do not depend on the sizes of its operands. */
  lemma ResizedAux(row: OpcodeDesc, aux: Aux, ops: seq<Operand>, k: nat, stale: bits2)
    requires |ops| <= 3 && k + aux.Consumes() <= |ops|
    ensures AuxBytes(row, aux, ResizeAll(row, ops), k, stale) == AuxBytes(row, aux, ops, k, stale)
  {
    hide RmBytes, LittleEndian, Resized;
    if aux.SlashR? {
      var m, r := k + RmPos(row), k + RegPos(row);
      ResizedOperand(row.opnds[r], ops[r], 0, stale);
      ResizedOperand(row.opnds[m], ops[m], HwIndex(ops[r].RegOf()), stale);
    } else if !aux.NoAux? {
      ResizedOperand(row.opnds[k], ops[k], if aux.SlashNum? then aux.digit else 0, stale);
    }
  }

  lemma ResizedBytes(row: OpcodeDesc, ops: seq<Operand>, stale: bits2)
    requires Supplies(row, ops)
    ensures RowBytes(row, ResizeAll(row, ops), stale) == RowBytes(row, ops, stale)
  {
    hide AuxBytes;
    ResizedAux(row, row.aux0, ops, row.firstOpnd, stale);
    ResizedAux(row, row.aux1, ops, row.firstOpnd + row.aux0.Consumes(), stale);
  }

  /** What a caller can check before encoding: the operand comes back as it was. */
  predicate Survives(d: OpndDesc, op: Operand) {
    op.Size() == d.size && Sound(op) && ScaleKept(op)
  }

  predicate AllSurvive(row: OpcodeDesc, ops: seq<Operand>)
    requires |ops| <= 3
  {
    forall i :: 0 <= i < |ops| ==> Survives(row.opnds[i], ops[i])
  }

  /** The operands come back with the row's sizes, and each is the one encoded exactly when it survives. */
  predicate Returned(row: OpcodeDesc, ops: seq<Operand>, got: seq<Operand>)
    requires |ops| <= 3
  {
    && Recovered(ResizeAll(row, ops), got)
    && forall i :: 0 <= i < |ops| ==> (got[i] == ops[i] <==> Survives(row.opnds[i], ops[i]))
  }

  lemma ResizedRecovered(d: OpndDesc, op: Operand, got: Operand)
    requires Proper(op) && RecoveredAs(Resized(d, op), got)
    ensures got == op <==> Survives(d, op)
  {
    hide Sound, ScaleKept, Seen;
    if op.Size() == d.size {
      assert Resized(d, op) == op;
    } else {
      assert Resized(d, op).Size() == d.size;
    }
  }

  /**
   * Round trip of a whole instruction against a row that matches the operands, if only loosely: the row,
   * the length and the operands it encodes, in the row's sizes, come back.
   */
  lemma LooseRoundTrip(row: OpcodeDesc, ops: seq<Operand>, stale: bits2, code: Code, at: nat)
    requires Described(row) && LooseMatch(row, ops) && AllProper(ops) && Supplies(row, ops)
    requires Holds(code, at, RowBytes(row, ops, stale))
    ensures RowAccepts(row, code, at)
    ensures RowLength(row, code, at) == |RowBytes(row, ops, stale)|
    ensures Returned(row, ops[..EncodedCount(row)], RowOperands(row, code, at))
    ensures PrefixEnd(code, at) == at && !RepeatsGroup(code, at)
  {
    hide RowBytes, RowAccepts, RowLength, PrefixEnd, RepeatsGroup, Holds, Describing, StartsClean, RecoveredAs,
      Survives, Resized, Proper, StrictMatch, LooseMatch, RowOperands;
    var ops', n := ResizeAll(row, ops), EncodedCount(row);
    ResizedMatch(row, ops);
    ResizedBytes(row, ops, stale);
    RowRoundTrip(row, ops', stale, code, at);
    var got := RowOperands(row, code, at);
    assert ResizeAll(row, ops[..n]) == ops'[..n];
    forall i | 0 <= i < n ensures got[i] == ops[..n][i] <==> Survives(row.opnds[i], ops[..n][i]) {
      assert RecoveredAs(ops'[..n][i], got[i]);
      ResizedRecovered(row.opnds[i], ops[i], got[i]);
    }
  }

  /** All operands come back as they were exactly when all survive. */
  lemma ReturnedAll(row: OpcodeDesc, ops: seq<Operand>, got: seq<Operand>)
    requires |ops| <= 3 && Returned(row, ops, got)
    ensures got == ops <==> AllSurvive(row, ops)
  {
    hide RecoveredAs, Survives, Resized;
  }

  /** The operands an instruction has once the registers that its row fixes are added to those it encodes. */
  function Completed(row: OpcodeDesc, got: seq<Operand>): (r: seq<Operand>)
    ensures |r| == |row.roles|
  {
    seq(|row.roles|, i requires 0 <= i < |row.roles| => if i < |got| then got[i] else RegOpnd(row.opnds[i].reg))
  }

  /** The operands that the row does not encode are the registers it fixes. */
  predicate FixedHold(row: OpcodeDesc, ops: seq<Operand>)
    requires |ops| <= 3
  {
    forall i :: EncodedCount(row) <= i < |ops| ==> ops[i] == RegOpnd(row.opnds[i].reg)
  }

  /**
   * The instruction is the one asked for exactly when the encoded operands survive and the others are the
   * registers that the row fixes; matching itself never looks at those.
   */
  lemma CompletedExact(row: OpcodeDesc, ops: seq<Operand>, got: seq<Operand>)
    requires |ops| == |row.roles| >= EncodedCount(row) && Returned(row, ops[..EncodedCount(row)], got)
    ensures Completed(row, got) == ops <==> AllSurvive(row, ops[..EncodedCount(row)]) && FixedHold(row, ops)
  {
    hide RecoveredAs, Survives, Resized, EncodedCount;
    var n := EncodedCount(row);
    var all := Completed(row, got);
    assert forall i :: 0 <= i < n ==> ops[..n][i] == ops[i] && all[i] == got[i];
    if AllSurvive(row, ops[..n]) && FixedHold(row, ops) {
      forall i | 0 <= i < |ops| ensures all[i] == ops[i] {
        if i < n {
          assert Survives(row.opnds[i], ops[..n][i]);
        }
      }
    }
    if all == ops {
      forall i | 0 <= i < n ensures Survives(row.opnds[i], ops[..n][i]) {
        assert got[i] == ops[..n][i];
      }
    }
  }

  /** Operands that a row does not encode leave no trace in the bytes. */
  lemma FixedLeaveNoTrace(row: OpcodeDesc, ops: seq<Operand>, ops': seq<Operand>, stale: bits2)
    requires row.firstOpnd == 0 && Supplies(row, ops) && Supplies(row, ops')
    requires ops[..EncodedCount(row)] == ops'[..EncodedCount(row)]
    ensures RowBytes(row, ops, stale) == RowBytes(row, ops', stale)
  {
    hide RmBytes, LittleEndian;
    var n := EncodedCount(row);
    assert forall i :: 0 <= i < n ==> ops[i] == ops[..n][i] == ops'[..n][i] == ops'[i];
  }

  /** An operand list that matches strictly has the row's sizes. */
  lemma StrictUnchanged(row: OpcodeDesc, ops: seq<Operand>)
    requires StrictMatch(row, ops)
    ensures ResizeAll(row, ops) == ops
  {
  }

  // ----- rows that begin with fixed operands -----

  /** The decoder starts at the first description where the encoder starts at the first operand not fixed. */
  function FrontDesc(row: OpcodeDesc, p: nat): OpndDesc
    requires p < 3
  {
    if p + row.firstOpnd < 3 then row.opnds[p].(kinds := row.opnds[p + row.firstOpnd].kinds) else row.opnds[p]
  }

  /** The row as its encoded operands meet it: their locations, in the sizes that the decoder gives them. */
  function Front(row: OpcodeDesc): (r: OpcodeDesc)
    requires row.firstOpnd <= |row.roles|
  {
    RawDesc(row.opcode, row.aux0, row.aux1, [FrontDesc(row, 0), FrontDesc(row, 1), FrontDesc(row, 2)], 0,
            row.roles[row.firstOpnd..], row.decoderOnly)
  }

  /** Both sides agree which operand is in the r/m position and which registers are XMM registers. */
  predicate Aligned(row: OpcodeDesc) {
    && row.firstOpnd <= |row.roles|
    && (forall p :: 0 <= p < 3 ==> (XMMReg in FrontDesc(row, p).kinds <==> XMMReg in row.opnds[p].kinds))
    && (row.aux0.SlashR? ==> (Mem in FrontDesc(row, 0).kinds <==> Mem in row.opnds[0].kinds))
  }

  lemma FrontBytes(row: OpcodeDesc, ops: seq<Operand>, stale: bits2)
    requires Aligned(row) && Supplies(row, ops)
    ensures Supplies(Front(row), ops[row.firstOpnd..])
    ensures RowBytes(Front(row), ops[row.firstOpnd..], stale) == RowBytes(row, ops, stale)
  {
    hide RmBytes, LittleEndian;
  }

  lemma FrontDecodes(row: OpcodeDesc, code: Code, at: nat)
    requires Aligned(row) && Searchable(row)
    ensures Searchable(Front(row)) && RowLength(Front(row), code, at) == RowLength(row, code, at)
    ensures RowAccepts(Front(row), code, at) <==> RowAccepts(row, code, at)
    ensures RowAccepts(row, code, at) ==> RowOperands(Front(row), code, at) == RowOperands(row, code, at)
  {
    hide AuxAccepts, AuxLength, AuxOperands, FrontDesc, OpcodeMatches;
    assert Front(row).opcode == row.opcode && Front(row).aux0 == row.aux0 && Front(row).aux1 == row.aux1;
    SameOpcode(row, Front(row), code, at);
    if RowAccepts(row, code, at) {
      var at0 := at + |row.opcode|;
      var at1 := at0 + AuxLength(row.aux0, code, at0);
      NeverRefused(row, code, at);
      FrontAux(row, row.aux0, code, at0, 0);
      FrontAux(row, row.aux1, code, at1, Yields(row.aux0));
    }
  }

  lemma SameOpcode(a: OpcodeDesc, b: OpcodeDesc, code: Code, at: nat)
    requires a.opcode == b.opcode
    ensures OpcodeMatches(a, code, at) == OpcodeMatches(b, code, at)
  {
  }

  lemma FrontAux(row: OpcodeDesc, aux: Aux, code: Code, at: nat, k: nat)
    requires Aligned(row) && k + Yields(aux) <= 3 && AuxAccepts(aux, code, at)
    requires aux.SlashR? ==> row.aux0.SlashR? && k == 0
    ensures AuxOperands(Front(row), aux, code, at, k) == AuxOperands(row, aux, code, at, k)
  {
    hide ReadDisp, ReadBase, ReadIndex, ReadScale, HiField, MidField, LoField, AuxAccepts;
  }

  /** The operands that such a row encodes come back: the first of them is the first operand that is not fixed. */
  lemma FrontRoundTrip(row: OpcodeDesc, ops: seq<Operand>, stale: bits2, code: Code, at: nat)
    requires Aligned(row) && Described(Front(row)) && Searchable(row) && Supplies(row, ops) && |ops| == |row.roles|
    requires LooseMatch(Front(row), ops[row.firstOpnd..]) && AllProper(ops[row.firstOpnd..])
    requires Holds(code, at, RowBytes(row, ops, stale))
    ensures RowAccepts(row, code, at) && EncodedCount(row) <= |ops| - row.firstOpnd
    ensures Returned(Front(row), ops[row.firstOpnd..][..EncodedCount(row)], RowOperands(row, code, at))
  {
    hide Described, LooseMatch, AllProper, RowBytes, RowAccepts, RowLength, RowOperands, Holds, Returned, PrefixEnd,
      RepeatsGroup, Searchable, Aligned;
    var rest := ops[row.firstOpnd..];
    FrontBytes(row, ops, stale);
    EncodedWithin(Front(row), rest);
    LooseRoundTrip(Front(row), rest, stale, code, at);
    FrontDecodes(row, code, at);
  }

  // ----- rows that cannot be confused -----

  /** What a row demands of the byte at an offset. */
  datatype Pattern = AnyByte | Exactly(b: byte) | Digit(d: bits3) | Within(base: byte)

  predicate Meets(p: Pattern, b: byte) {
    match p
    case AnyByte => true
    case Exactly(c) => b == c
    case Digit(d) => MidField(b) == d
    case Within(base) => base <= b <= base + 7
  }

  /** Some byte that meets both demands, when there is one. */
  function Common(p: Pattern, q: Pattern): byte {
    match (p, q)
    case (Exactly(b), _) => b
    case (_, Exactly(b)) => b
    case (Digit(d), Within(base)) => InBoth(d, base)
    case (Within(base), Digit(d)) => InBoth(d, base)
    case (Within(a), Within(b)) => if a <= b then b else a
    case (Digit(d), _) => d * 8
    case (_, Digit(d)) => d * 8
    case (Within(base), _) => base
    case (_, Within(base)) => base
    case (AnyByte, AnyByte) => 0
  }

  /** The last byte from base to base + 7 with the given middle field lies just there or not at all. */
  function InBoth(d: bits3, base: byte): byte {
    if MidField(base) == d || base > 248 then base else base + 7
  }

  predicate Clash(p: Pattern, q: Pattern) {
    !(Meets(p, Common(p, q)) && Meets(q, Common(p, q)))
  }

  lemma ClashExact(p: Pattern, q: Pattern, b: byte)
    requires Meets(p, b) && Meets(q, b)
    ensures !Clash(p, q)
  {
    match (p, q)
    case (Digit(d), Within(base)) => MidOfRun(base, b);
    case (Within(base), Digit(d)) => MidOfRun(base, b);
    case (Digit(d), AnyByte) => DigitByte(d);
    case (AnyByte, Digit(d)) => DigitByte(d);
    case (Digit(d), Digit(e)) => DigitByte(d);
    case _ =>
  }

  lemma DigitByte(d: bits3)
    ensures MidField(d * 8) == d
  {
    PackFields(0, d, 0);
    assert Pack(0, d, 0) == d * 8;
  }

  /** Eight consecutive bytes have the middle field of the first or of the last. */
  lemma MidOfRun(base: byte, b: byte)
    requires base <= b <= base + 7
    ensures MidField(b) == MidField(base) || (base <= 248 && MidField(b) == MidField(base + 7))
  {
    var x, y: int := base / 8, b / 8;
    assert x <= y <= x + 1;
    if y == x + 1 && base <= 248 {
      assert (base + 7) / 8 == x + 1;
    }
  }

  function PatternAt(row: OpcodeDesc, i: nat): Pattern {
    if i < |row.opcode| then Exactly(row.opcode[i])
    else if i > |row.opcode| then AnyByte
    else match row.aux0
      case SlashNum(d) => Digit(d)
      case PlusReg(_, base) => Within(base)
      case PlusI(base) => Within(base)
      case _ => AnyByte
  }

  /** A row matches exactly when each of the first five bytes meets its demand. */
  lemma AcceptsByPattern(row: OpcodeDesc, code: Code, at: nat)
    ensures RowAccepts(row, code, at) <==> forall i :: 0 <= i < 5 ==> Meets(PatternAt(row, i), At(code, at + i))
  {
    var n := |row.opcode|;
    assert AuxAccepts(row.aux0, code, at + n) <==> Meets(PatternAt(row, n), At(code, at + n));
    forall i | 0 <= i < n ensures At(code, at + i) == row.opcode[i] <==> Meets(PatternAt(row, i), At(code, at + i)) {
    }
  }

  /** The demands of the two rows exclude each other at some offset. */
  predicate Disjoint(a: OpcodeDesc, b: OpcodeDesc) {
    exists i :: 0 <= i < 5 && Clash(PatternAt(a, i), PatternAt(b, i))
  }

  /** Rows are disjoint exactly when no code matches both. */
  lemma DisjointExact(a: OpcodeDesc, b: OpcodeDesc)
    ensures Disjoint(a, b) <==> forall code: Code, at: nat :: !(RowAccepts(a, code, at) && RowAccepts(b, code, at))
  {
    if Disjoint(a, b) {
      forall code: Code, at: nat ensures !(RowAccepts(a, code, at) && RowAccepts(b, code, at)) {
        if RowAccepts(a, code, at) {
          DisjointSound(a, b, code, at);
        }
      }
    } else {
      var code: Code := seq(5, i requires 0 <= i < 5 => Common(PatternAt(a, i), PatternAt(b, i)));
      forall i | 0 <= i < 5 ensures Meets(PatternAt(a, i), At(code, 0 + i)) && Meets(PatternAt(b, i), At(code, 0 + i)) {
        assert !Clash(PatternAt(a, i), PatternAt(b, i));
      }
      AcceptsByPattern(a, code, 0);
      AcceptsByPattern(b, code, 0);
    }
  }

  lemma DisjointSound(a: OpcodeDesc, b: OpcodeDesc, code: Code, at: nat)
    requires Disjoint(a, b) && RowAccepts(a, code, at)
    ensures !RowAccepts(b, code, at)
  {
    if RowAccepts(b, code, at) {
      AcceptsByPattern(a, code, at);
      AcceptsByPattern(b, code, at);
      var i :| 0 <= i < 5 && Clash(PatternAt(a, i), PatternAt(b, i));
      ClashExact(PatternAt(a, i), PatternAt(b, i), At(code, at + i));
    }
  }

  predicate Before(mn: nat, i: nat, mn': nat, i': nat) {
    mn < mn' || (mn == mn' && i < i')
  }

  /** No earlier row of the table can be confused with row i of mnemonic mn. */
  ghost predicate Distinguished(table: Table, mn: nat, i: nat) {
    && 1 <= mn < |table| && i < |table[mn]|
    && forall m, j :: 1 <= m < |table| && 0 <= j < |table[m]| && Before(m, j, mn, i) ==>
         Disjoint(table[m][j], table[mn][i])
  }

  /** The decoder's first match is the distinguished row whenever that row matches. */
  lemma FoundFirst(table: Table, mn: nat, i: nat, code: Code, at: nat)
    requires Distinguished(table, mn, i) && RowAccepts(table[mn][i], code, at)
    ensures FirstInTable(table, code, at, mn, i)
    ensures forall mn', i' :: FirstInTable(table, code, at, mn', i') ==> mn' == mn && i' == i
  {
    hide RowAccepts, Disjoint;
    forall m, j | 1 <= m < |table| && 0 <= j < |table[m]| && Before(m, j, mn, i)
      ensures !RowAccepts(table[m][j], code, at)
    {
      assert Disjoint(table[m][j], table[mn][i]);
      if RowAccepts(table[m][j], code, at) {
        DisjointSound(table[m][j], table[mn][i], code, at);
      }
    }
    forall mn', i' | FirstInTable(table, code, at, mn', i') ensures mn' == mn && i' == i {
      assert !Before(mn', i', mn, i);
      assert !Before(mn, i, mn', i');
    }
  }

  /** The hypothesis is exact: a row is always found first when it matches, exactly when it is distinguished. */
  lemma DistinguishedExact(table: Table, mn: nat, i: nat)
    requires 1 <= mn < |table| && i < |table[mn]|
    ensures Distinguished(table, mn, i) <==>
            forall code: Code, at: nat :: RowAccepts(table[mn][i], code, at) ==> FirstInTable(table, code, at, mn, i)
  {
    hide RowAccepts, Disjoint;
    if Distinguished(table, mn, i) {
      forall code: Code, at: nat | RowAccepts(table[mn][i], code, at) ensures FirstInTable(table, code, at, mn, i) {
        FoundFirst(table, mn, i, code, at);
      }
    } else {
      var m, j :| 1 <= m < |table| && 0 <= j < |table[m]| && Before(m, j, mn, i) &&
        !Disjoint(table[m][j], table[mn][i]);
      DisjointExact(table[m][j], table[mn][i]);
      var code: Code, at: nat :| RowAccepts(table[m][j], code, at) && RowAccepts(table[mn][i], code, at);
      assert !FirstInTable(table, code, at, mn, i);
    }
  }

  // ----- the whole instruction through the whole table -----

  /** Built tables whose rows can all be searched and, unless they are for decoding only, hash. */
  ghost predicate WellFormed(t: TableBuilder.Tables) {
    && TableBuilder.Built(t)
    && SearchableTable(t.opcodes)
    && forall mn, i :: 0 <= mn < |t.opcodes| && 0 <= i < |t.opcodes[mn]| ==>
         t.opcodes[mn][i].decoderOnly || TableBuilder.Hashable(t.opcodes[mn][i])
  }

  /** The encoder finds a row for the operands that is legible and that no earlier row can be confused with. */
  ghost predicate Locatable(t: TableBuilder.Tables, mn: nat, ops: seq<Operand>) {
    && SearchableTable(t.opcodes) && Encodes(t, mn, ops)
    && Legible(ChosenRow(t, mn, ops)) && Distinguished(t.opcodes, mn, ChosenIndex(t, mn, ops))
  }

  /**
   * Besides, the row describes the operands it encodes.  Nothing is asked of the other rows of the mnemonic,
   * or of the operands that the row does not encode.
   */
  ghost predicate Decodable(t: TableBuilder.Tables, mn: nat, ops: seq<Operand>) {
    && SearchableTable(t.opcodes) && Encodes(t, mn, ops) && AllProper(ops)
    && LooseMatch(ChosenRow(t, mn, ops), ops)
    && Described(ChosenRow(t, mn, ops)) && Distinguished(t.opcodes, mn, ChosenIndex(t, mn, ops))
  }

  lemma DecodableLocatable(t: TableBuilder.Tables, mn: nat, ops: seq<Operand>)
    requires Decodable(t, mn, ops)
    ensures Locatable(t, mn, ops)
  {
    hide Distinguished, SearchableTable, Encodes, LooseMatch, AllProper, Legible, Described;
    DescribedLegible(ChosenRow(t, mn, ops));
  }

  /** Row i of mnemonic mn is one the round trip is proved for. */
  ghost predicate Covered(t: TableBuilder.Tables, mn: nat, i: nat) {
    && mn < |t.opcodes| && i < |t.opcodes[mn]|
    && Described(t.opcodes[mn][i]) && Distinguished(t.opcodes, mn, i)
  }

  /**
   * On a well-formed table, for every regular list of proper operands: lookup finds a row exactly when some
   * row for encoding matches at least loosely, and if the row found is covered the operands are decodable.
   */
  lemma ChoiceDecodable(t: TableBuilder.Tables, mn: nat, ops: seq<Operand>)
    requires WellFormed(t) && mn < |t.opcodes| && Regular(Shapes(ops)) && Hash(Shapes(ops)) < HASH_MAX && AllProper(ops)
    ensures |t.maps| == |t.opcodes| && |t.maps[mn]| == HASH_MAX
    ensures var i := TableBuilder.Select(t.opcodes[mn], t.maps[mn], ops);
            && (i.Some? <==>
                exists j :: 0 <= j < |t.opcodes[mn]| && TableBuilder.Accepted(t.opcodes[mn][j], ops, false))
            && (i.Some? ==>
                  && i.value < |t.opcodes[mn]| && TableBuilder.Accepted(t.opcodes[mn][i.value], ops, false)
                  && (StrictMatch(t.opcodes[mn][i.value], ops) <==>
                      exists j :: 0 <= j < |t.opcodes[mn]| && TableBuilder.Usable(t.opcodes[mn][j], ops)))
            && (i.Some? && Covered(t, mn, i.value) ==> Decodable(t, mn, ops) && ChosenIndex(t, mn, ops) == i.value)
  {
    hide Described, Distinguished, Shapes, Hash, SearchableTable, AllProper, LooseMatch, StrictMatch;
    assert TableBuilder.Indexed(t.maps[mn], t.opcodes[mn]);
    TableBuilder.SelectExact(t.opcodes[mn], t.maps[mn], ops);
    var i := TableBuilder.Select(t.opcodes[mn], t.maps[mn], ops);
    if i.Some? && Covered(t, mn, i.value) {
      DescribedSupplies(t.opcodes[mn][i.value], ops);
      assert |ops| == |Shapes(ops)| <= 3;
    }
  }

  /** Any two first matches are the same. */
  lemma FirstUnique(table: Table, code: Code, at: nat, mn: nat, i: nat, mn': nat, i': nat)
    requires FirstInTable(table, code, at, mn, i) && FirstInTable(table, code, at, mn', i')
    ensures mn == mn' && i == i'
  {
    hide RowAccepts;
    assert !NoRow(table[mn], code, at) && !NoRow(table[mn'], code, at);
  }

  /** The number of operands the decoder reports for a row. */
  function Reported(row: OpcodeDesc): nat {
    Yields(row.aux0) + Yields(row.aux1)
  }

  /**
   * Whole-instruction round trip: in any code that holds the bytes the encoder produces for a mnemonic and
   * its operands, the decoder's first match is that mnemonic and row, with the same length.  If the row
   * describes the operands it encodes, they come back in the row's sizes, and each is the same exactly when
   * it survives.
   */
  lemma EncodeDecode(t: TableBuilder.Tables, mn: nat, ops: seq<Operand>, stale: bits2, code: Code, at: nat)
    requires Locatable(t, mn, ops)
    requires Holds(code, at, RowBytes(ChosenRow(t, mn, ops), ops, stale))
    ensures PrefixEnd(code, at) == at && !RepeatsGroup(code, at)
    ensures FirstInTable(t.opcodes, code, at, mn, ChosenIndex(t, mn, ops))
    ensures RowLength(ChosenRow(t, mn, ops), code, at) == |RowBytes(ChosenRow(t, mn, ops), ops, stale)|
    ensures Searchable(ChosenRow(t, mn, ops)) && RowAccepts(ChosenRow(t, mn, ops), code, at)
    ensures |RowOperands(ChosenRow(t, mn, ops), code, at)| == Reported(ChosenRow(t, mn, ops))
    ensures Decodable(t, mn, ops) ==>
              var row := ChosenRow(t, mn, ops);
              EncodedCount(row) <= |ops| && Returned(row, ops[..EncodedCount(row)], RowOperands(row, code, at))
  {
    hide Distinguished, RowBytes, RowLength, RowOperands, PrefixEnd, RepeatsGroup, RowAccepts, Encodes,
      Holds, Returned, FirstInTable, LooseMatch, AllProper, Described, StartsClean, SearchableTable;
    var row := ChosenRow(t, mn, ops);
    LengthRoundTrip(row, ops, stale, code, at);
    FoundFirst(t.opcodes, mn, ChosenIndex(t, mn, ops), code, at);
    ReportedCount(row, code, at);
    if Decodable(t, mn, ops) {
      EncodedWithin(row, ops);
      LooseRoundTrip(row, ops, stale, code, at);
    }
  }

  lemma ReportedCount(row: OpcodeDesc, code: Code, at: nat)
    requires Searchable(row) && RowAccepts(row, code, at)
    ensures |RowOperands(row, code, at)| == Reported(row)
  {
  }

  lemma EncodedWithin(row: OpcodeDesc, ops: seq<Operand>)
    requires Described(row) && LooseMatch(row, ops)
    ensures EncodedCount(row) <= |ops| == |row.roles| <= 3 && Reported(row) == EncodedCount(row)
  {
    DescribedLegible(row);
  }

  /**
   * The encoder's disabled self-check: what was just written is decoded again.  Mnemonic and length always
   * agree.  All operands can come back only if the decoder reports as many as there are; where the row
   * describes what it encodes, they do exactly when the row encodes every operand and all of them survive.
   */
  method EncodeChecked(cb: CodeBuffer, t: TableBuilder.Tables, stream: nat, mn: nat, opnds: Operands)
    returns (next: nat, size: nat, inst: Inst)
    requires cb.Valid() && opnds.Valid() && Locatable(t, mn, opnds.items)
    requires stream + |RowBytes(ChosenRow(t, mn, opnds.items), opnds.items, 0)| <= cb.buf.Length
    modifies cb, cb.buf
    ensures cb.Valid() && inst.Valid()
    ensures size == next - stream > 0 && inst.mn == mn && inst.argc == Reported(ChosenRow(t, mn, opnds.items)) <= 3
    ensures inst.operands[..inst.argc] == opnds.items ==> Reported(ChosenRow(t, mn, opnds.items)) == |opnds.items|
    ensures Decodable(t, mn, opnds.items) ==>
              var row, ops := ChosenRow(t, mn, opnds.items), opnds.items;
              && EncodedCount(row) <= |ops| && Returned(row, ops[..EncodedCount(row)], inst.operands[..inst.argc])
              && (inst.operands[..inst.argc] == ops <==> Explicit(row) && AllSurvive(row, ops))
  {
    hide Described, Distinguished, RowBytes, RowLength, RowOperands, PrefixEnd, RepeatsGroup, RowAccepts, FirstInTable,
      RowLocated, Overlay, Encodes, LooseMatch, AllProper, SearchableTable, Returned, StaleScale, Searchable,
      AllSurvive, Legible, EncodedCount, Reported;
    ghost var code, ops, row := cb.buf[..], opnds.items, ChosenRow(t, mn, opnds.items);
    ghost var stale := StaleScale(code, stream + |row.opcode|);
    RowBytesLength(row, ops, stale, 0);
    next := cb.Encode(t, stream, mn, opnds);
    OverlayHolds(code, stream, RowBytes(row, ops, stale));
    size, inst := DecodeWritten(t, mn, ops, stale, cb.buf[..], stream);
    if Decodable(t, mn, ops) {
      EncodedWithin(row, ops);
      ghost var n := EncodedCount(row);
      ReturnedAll(row, ops[..n], inst.operands[..inst.argc]);
      assert n == |ops| ==> ops[..n] == ops;
    }
  }

  /** Decoding an instruction of the encoder behind one prefix: the same instruction, one byte longer. */
  method DecodePrefixed(t: TableBuilder.Tables, ghost mn: nat, ghost ops: seq<Operand>, ghost stale: bits2,
                        code: Code, at: nat)
    returns (size: nat, inst: Inst)
    requires Locatable(t, mn, ops) && PrefixHere(code, at)
    requires Holds(code, at + 1, RowBytes(ChosenRow(t, mn, ops), ops, stale))
    ensures fresh(inst) && inst.Valid()
    ensures size == 1 + |RowBytes(ChosenRow(t, mn, ops), ops, stale)| && inst.mn == mn
    ensures inst.prefc == 1 && At(code, at) in inst.pref && SlotsByClass(inst.pref)
    ensures inst.argc == Reported(ChosenRow(t, mn, ops)) <= 3
    ensures Decodable(t, mn, ops) ==>
              var row := ChosenRow(t, mn, ops);
              EncodedCount(row) <= |ops| && Returned(row, ops[..EncodedCount(row)], inst.operands[..inst.argc])
  {
    hide Described, Distinguished, RowBytes, RowLength, RowOperands, RowAccepts, LooseMatch, AllProper, Encodes,
      SearchableTable, Returned, Searchable, Holds, Legible, EncodedCount, Reported, SlotsByClass, PrefixHere,
      RepeatsGroup, PrefixEnd;
    EncodeDecode(t, mn, ops, stale, code, at + 1);
    OnePrefix(code, at);
    size, inst := Decode(t.opcodes, code, at);
    assert !NoRow(t.opcodes[mn], code, at + 1);
    FirstUnique(t.opcodes, code, at + 1, mn, ChosenIndex(t, mn, ops), inst.mn, inst.row);
  }

  lemma OnePrefix(code: Code, at: nat)
    requires PrefixHere(code, at) && PrefixEnd(code, at + 1) == at + 1
    ensures PrefixEnd(code, at) == at + 1 && !RepeatsGroup(code, at)
  {
    PrefixBytes(code, at);
    PrefixRun(code, at, at + 1);
    PrefixRun(code, at + 1, at + 1);
  }

  /** Decoding code that holds an instruction of the encoder. */
  method DecodeWritten(t: TableBuilder.Tables, ghost mn: nat, ghost ops: seq<Operand>, ghost stale: bits2,
                       code: Code, at: nat)
    returns (size: nat, inst: Inst)
    requires Locatable(t, mn, ops)
    requires Holds(code, at, RowBytes(ChosenRow(t, mn, ops), ops, stale))
    ensures fresh(inst) && inst.Valid()
    ensures size == |RowBytes(ChosenRow(t, mn, ops), ops, stale)| > 0 && inst.mn == mn
    ensures inst.argc == Reported(ChosenRow(t, mn, ops)) <= 3
    ensures Decodable(t, mn, ops) ==>
              var row := ChosenRow(t, mn, ops);
              EncodedCount(row) <= |ops| && Returned(row, ops[..EncodedCount(row)], inst.operands[..inst.argc])
  {
    hide Described, Distinguished, RowBytes, RowLength, RowOperands, RepeatsGroup, RowAccepts, LooseMatch, AllProper,
      Encodes, SearchableTable, Returned, Searchable, PrefixEnd, Holds, Legible, EncodedCount, Reported;
    EncodeDecode(t, mn, ops, stale, code, at);
    size, inst := Decode(t.opcodes, code, at);
    assert !NoRow(t.opcodes[mn], code, at);
    FirstUnique(t.opcodes, code, at, mn, ChosenIndex(t, mn, ops), inst.mn, inst.row);
  }

  lemma RowBytesLength(row: OpcodeDesc, ops: seq<Operand>, stale: bits2, stale': bits2)
    requires Supplies(row, ops)
    ensures |RowBytes(row, ops, stale)| == |RowBytes(row, ops, stale')|
  {
    AuxBytesLength(row, row.aux0, ops, row.firstOpnd, stale, stale');
    AuxBytesLength(row, row.aux1, ops, row.firstOpnd + row.aux0.Consumes(), stale, stale');
  }
}
