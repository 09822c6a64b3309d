/**
 * The ModR/M byte, the SIB byte and the displacement of a register or memory
 * operand: what encodeModRM writes, what decodeModRM reads back, and the proof
 * that the second undoes the first.
 */
module ModRM {
  import opened Basics
  import opened X86
  import opened Rows

  // ----- encoding -----

  /** A SIB byte is written for an index register, or when the base register is ESP. */
  predicate HasSib(op: Operand)
    requires op.MemOpnd?
  {
    !op.index.NoReg? || (!op.base.NoReg? && HwIndex(op.base) == ESP.index)
  }

  /** No displacement, disp8 or disp32; without a base the displacement always takes 32 bits. */
  function DispWidth(op: Operand): Option<Width>
    requires op.MemOpnd?
  {
    if op.base.NoReg? then Some(W4)
    else if op.disp == 0 && HwIndex(op.base) != EBP.index then None
    else if -127 <= op.disp <= 127 then Some(W1)
    else Some(W4)
  }

  function ModField(op: Operand): bits2
    requires op.MemOpnd?
  {
    if op.base.NoReg? then 0
    else match DispWidth(op) case None => 0 case Some(w) => if w.W1? then 1 else 2
  }

  function RmField(op: Operand): bits3
    requires op.MemOpnd?
  {
    if HasSib(op) then 4 else if op.base.NoReg? then 5 else HwIndex(op.base)
  }

  /** The SS field; a scale outside 0, 1, 2, 4, 8 assigns nothing and the stale bits stay. */
  function ScaleField(scale: nat, stale: bits2): bits2 {
    if scale <= 1 then 0 else if scale == 2 then 1 else if scale == 4 then 2 else if scale == 8 then 3 else stale
  }

  function SibByte(op: Operand, stale: bits2): byte
    requires op.MemOpnd?
  {
    var base := if op.base.NoReg? then 5 else HwIndex(op.base);
    if op.index.NoReg? then Pack(0, 4, base) else Pack(ScaleField(op.scale, stale), HwIndex(op.index), base)
  }

  function SibBytes(op: Operand, stale: bits2): seq<byte>
    requires op.MemOpnd?
  {
    if HasSib(op) then [SibByte(op, stale)] else []
  }

  function DispBytes(op: Operand): seq<byte>
    requires op.MemOpnd?
  {
    match DispWidth(op)
    case None => []
    case Some(w) => LittleEndian(w, op.disp)
  }

  /** The bytes of a memory operand, given the reg field and the bits found in the SS field. */
  function MemBytes(op: Operand, reg: bits3, stale: bits2): seq<byte>
    requires op.MemOpnd?
  {
    [Pack(ModField(op), reg, RmField(op))] + SibBytes(op, stale) + DispBytes(op)
  }

  /** A register (mod = 11) or memory operand in the r/m position. */
  function RmBytes(op: Operand, reg: bits3, stale: bits2): (s: seq<byte>)
    ensures 1 <= |s| <= 6
  {
    if op.MemOpnd? then MemBytes(op, reg, stale) else [Pack(3, reg, HwIndex(op.RegOf()))]
  }

  // ----- decoding -----

  /** The register a reg or r/m field denotes in the position a row describes. */
  function FieldReg(d: OpndDesc, index: bits3): RegName {
    Reg(if XMMReg in d.kinds || d.size == Size64 then XMMReg else GPReg, d.size, index)
  }

  function GP32(index: bits3): RegName { Reg(GPReg, Size32, index) }

  function ReadDispWidth(mod: bits2, rm: bits3, sibByte: byte): Option<Width> {
    if mod == 2 then Some(W4)
    else if mod == 1 then Some(W1)
    else if rm == 5 || (rm == 4 && LoField(sibByte) == 5) then Some(W4)
    else None
  }

  function ReadIndex(rm: bits3, sibByte: byte): RegName {
    if rm == 4 && MidField(sibByte) != 4 then GP32(MidField(sibByte)) else NoReg
  }

  function ReadBase(mod: bits2, rm: bits3, sibByte: byte): RegName {
    var field := if rm == 4 then LoField(sibByte) else rm;
    if field != 5 || mod != 0 then GP32(field) else NoReg
  }

  function ReadScale(rm: bits3, sibByte: byte): nat {
    if rm != 4 then 0 else match HiField(sibByte) case 0 => 1 case 1 => 2 case 2 => 4 case _ => 8
  }

  function ReadDisp(code: Code, at: nat, width: Option<Width>): int32 {
    match width
    case None => 0
    case Some(w) => ReadSigned(code, at, w)
  }

  /** The operand in the r/m position. */
  function ReadRm(d: OpndDesc, code: Code, at: nat): Operand {
    var mod, rm, sibByte := HiField(At(code, at)), LoField(At(code, at)), At(code, at + 1);
    if mod == 3 then
      RegOpnd(FieldReg(d, rm))
    else
      MemOpnd(d.size, ReadBase(mod, rm, sibByte), ReadIndex(rm, sibByte), ReadScale(rm, sibByte),
              ReadDisp(code, at + (if rm == 4 then 2 else 1), ReadDispWidth(mod, rm, sibByte)))
  }

  /** The number of bytes the operand in the r/m position occupies. */
  function RmLength(code: Code, at: nat): nat {
    var mod, rm, sibByte := HiField(At(code, at)), LoField(At(code, at)), At(code, at + 1);
    if mod == 3 then 1
    else
      (if rm == 4 then 2 else 1) +
      match ReadDispWidth(mod, rm, sibByte) case None => 0 case Some(w) => w.Count()
  }

  // ----- round trip -----

  /** Address registers are absent or 32-bit general-purpose registers. */
  predicate AddressReg(r: RegName) {
    r.NoReg? || (r.kind == GPReg && r.size == Size32)
  }

  predicate ValidScale(scale: nat) {
    scale == 0 || scale == 1 || scale == 2 || scale == 4 || scale == 8
  }

  /** Absent or 32-bit address registers, and a scale factor the SS field can hold. */
  predicate Addressing(op: Operand) {
    op.MemOpnd? && AddressReg(op.base) && AddressReg(op.index) && (op.index.NoReg? || ValidScale(op.scale))
  }

  /** What encodeModRM asserts of a memory operand: a scale only with an index, and no ESP index. */
  predicate AssertsHold(op: Operand)
    requires op.MemOpnd?
  {
    (op.index.NoReg? ==> op.scale == 0) && op.index != ESP
  }

  /** The operand as the decoder gives it back: scale 1 whenever a SIB byte holds no larger factor. */
  function Seen(op: Operand): Operand {
    if !op.MemOpnd? then op
    else if !HasSib(op) then op.(scale := 0)
    else if op.index.NoReg? || op.scale == 0 then op.(scale := 1)
    else op
  }

  /** The scale is what the decoder reports: not 0 next to an index, 1 for a SIB byte without one, else 0. */
  predicate ScaleKept(op: Operand) {
    !op.MemOpnd? ||
    if !HasSib(op) then op.scale == 0 else if op.index.NoReg? then op.scale == 1 else op.scale != 0
  }

  lemma SeenUnchanged(op: Operand)
    ensures Seen(op) == op <==> ScaleKept(op)
  {
  }

  lemma MemPieces(op: Operand, reg: bits3, stale: bits2, code: Code, at: nat)
    requires op.MemOpnd? && Holds(code, at, MemBytes(op, reg, stale))
    ensures At(code, at) == Pack(ModField(op), reg, RmField(op))
    ensures HasSib(op) ==> At(code, at + 1) == SibByte(op, stale)
    ensures Holds(code, at + (if HasSib(op) then 2 else 1), DispBytes(op))
  {
    var head := [Pack(ModField(op), reg, RmField(op))] + SibBytes(op, stale);
    HoldsSplit(code, at, head, DispBytes(op));
    HoldsAt(code, at, head, 0);
    if HasSib(op) {
      HoldsAt(code, at, head, 1);
    }
  }

  lemma DispReadBack(op: Operand, code: Code, at: nat)
    requires op.MemOpnd? && Holds(code, at, DispBytes(op))
    ensures ReadDisp(code, at, DispWidth(op)) == op.disp
  {
    match DispWidth(op)
    case None =>
    case Some(w) => ReadBack(code, at, w, op.disp);
  }

  lemma WidthReadBack(op: Operand, stale: bits2, sibByte: byte)
    requires op.MemOpnd? && (HasSib(op) ==> sibByte == SibByte(op, stale))
    ensures ReadDispWidth(ModField(op), RmField(op), sibByte) == DispWidth(op)
  {
    SibFields(op, stale);
  }

  lemma SibFields(op: Operand, stale: bits2)
    requires op.MemOpnd?
    ensures HiField(SibByte(op, stale)) == if op.index.NoReg? then 0 else ScaleField(op.scale, stale)
    ensures MidField(SibByte(op, stale)) == if op.index.NoReg? then 4 else HwIndex(op.index)
    ensures LoField(SibByte(op, stale)) == if op.base.NoReg? then 5 else HwIndex(op.base)
  {
    PackFields(if op.index.NoReg? then 0 else ScaleField(op.scale, stale),
               if op.index.NoReg? then 4 else HwIndex(op.index),
               if op.base.NoReg? then 5 else HwIndex(op.base));
  }

  lemma MemLength(op: Operand, reg: bits3, stale: bits2)
    requires op.MemOpnd?
    ensures |MemBytes(op, reg, stale)| ==
            (if HasSib(op) then 2 else 1) + match DispWidth(op) case None => 0 case Some(w) => w.Count()
  {
  }

  /**
   * Decoding the ModR/M bytes of a memory operand consumes exactly the bytes that were
   * written and gives back base and displacement; the index comes back exactly when it
   * is not ESP, and then the operand is the same up to the scale convention.
   */
  lemma MemRoundTrip(op: Operand, d: OpndDesc, reg: bits3, stale: bits2, code: Code, at: nat)
    requires Addressing(op) && d.size == op.memSize
    requires Holds(code, at, MemBytes(op, reg, stale))
    ensures MidField(At(code, at)) == reg
    ensures RmLength(code, at) == |MemBytes(op, reg, stale)|
    ensures ReadRm(d, code, at).MemOpnd?
    ensures ReadRm(d, code, at).base == op.base && ReadRm(d, code, at).disp == op.disp
    ensures ReadRm(d, code, at) == Seen(op) <==> op.index != ESP
    ensures op.index == ESP ==> ReadRm(d, code, at).index.NoReg?
  {
    hide Pack, HiField, MidField, LoField, LittleEndian, ReadSigned, At, Holds, SibByte, DispBytes;
    var mod, rm := ModField(op), RmField(op);
    MemLength(op, reg, stale);
    MemPieces(op, reg, stale, code, at);
    PackFields(mod, reg, rm);
    WidthReadBack(op, stale, At(code, at + 1));
    DispReadBack(op, code, at + (if HasSib(op) then 2 else 1));
    SibFields(op, stale);
  }

  /** The address an operand denotes in a register state; scale 0 means an unscaled index. */
  function EffectiveAddress(op: Operand, regs: RegName -> int): int
    requires op.MemOpnd?
  {
    var base := if op.base.NoReg? then 0 else regs(op.base);
    var index := if op.index.NoReg? then 0 else regs(op.index) * (if op.scale == 0 then 1 else op.scale);
    (base + index + op.disp) % 0x1_0000_0000
  }

  /** The register state in which only ESP is not zero. */
  function OnlyEsp(): RegName -> int {
    r => if r == ESP then 1 else 0
  }

  /** The decoded operand denotes the encoded address in every register state exactly when ESP is not the index. */
  lemma AddressPreserved(op: Operand, d: OpndDesc, reg: bits3, stale: bits2, code: Code, at: nat)
    requires Addressing(op) && d.size == op.memSize
    requires Holds(code, at, MemBytes(op, reg, stale))
    ensures ReadRm(d, code, at).MemOpnd?
    ensures (forall regs :: EffectiveAddress(ReadRm(d, code, at), regs) == EffectiveAddress(op, regs))
            <==> op.index != ESP
  {
    hide ReadRm, RmLength, MemBytes, Holds, HiField, MidField, LoField;
    MemRoundTrip(op, d, reg, stale, code, at);
    var seen := ReadRm(d, code, at);
    if op.index == ESP {
      assert EffectiveAddress(seen, OnlyEsp()) != EffectiveAddress(op, OnlyEsp());
    } else {
      forall regs ensures EffectiveAddress(seen, regs) == EffectiveAddress(op, regs) {
        SameAddress(op, regs);
      }
    }
  }

  lemma SameAddress(op: Operand, regs: RegName -> int)
    requires Addressing(op)
    ensures EffectiveAddress(Seen(op), regs) == EffectiveAddress(op, regs)
  {
  }

  /**
   * The address that the processor forms from any ModR/M byte other than mod = 11, as section 2.1.5 of the
   * Intel 64 and IA-32 SDM, Volume 2A, lays it down.
   */
  function MachineAddress(code: Code, at: nat, regs: RegName -> int): int {
    var modrm, sib := At(code, at), At(code, at + 1);
    var mod, rm := modrm / 64, modrm % 8;
    var next := if rm == 4 then at + 2 else at + 1;
    var noBase := mod == 0 && (rm == 5 || (rm == 4 && sib % 8 == 5));
    var base := if noBase then 0 else regs(GP32(if rm == 4 then sib % 8 else rm));
    var index := if rm == 4 && sib / 8 % 8 != 4 then regs(GP32(sib / 8 % 8)) * [1, 2, 4, 8][sib / 64] else 0;
    var disp :=
      if mod == 1 then ReadSigned(code, next, W1) else if mod == 2 || noBase then ReadSigned(code, next, W4) else 0;
    (base + index + disp) % 0x1_0000_0000
  }

  /** The operand read from any bytes at all denotes the address the processor forms from them. */
  lemma ReadsMachineAddress(d: OpndDesc, code: Code, at: nat, regs: RegName -> int)
    requires At(code, at) / 64 != 3
    ensures ReadRm(d, code, at).MemOpnd? && ReadRm(d, code, at).memSize == d.size
    ensures EffectiveAddress(ReadRm(d, code, at), regs) == MachineAddress(code, at, regs)
  {
    hide ReadSigned;
  }

  /** How many bytes a memory operand takes, and which: the shortest displacement, a SIB byte only where needed. */
  lemma MemShape(op: Operand, reg: bits3, stale: bits2)
    requires op.MemOpnd?
    ensures var sib := if op.index != NoReg || (op.base != NoReg && HwIndex(op.base) == 4) then 1 else 0;
            var disp := if op.base == NoReg then 4
                        else if op.disp == 0 && HwIndex(op.base) != 5 then 0
                        else if op.disp < -127 || op.disp > 127 then 4 else 1;
            |MemBytes(op, reg, stale)| == 1 + sib + disp
  {
  }

  /** A decoded operand encodes to the bytes it was decoded from. */
  lemma SeenSameBytes(op: Operand, reg: bits3, stale: bits2, stale': bits2)
    requires op.MemOpnd? ==> Addressing(op)
    ensures RmBytes(Seen(op), reg, stale') == RmBytes(op, reg, stale)
  {
  }

  /** What re-encoding a decoded operand needs: no ESP index, unless the base is ESP too and the index unscaled. */
  predicate Reproducible(op: Operand)
    requires op.MemOpnd?
  {
    op.index != ESP || (op.base == ESP && op.scale <= 1)
  }

  /** The operand that was read encodes to the bytes it was read from exactly when it is reproducible. */
  lemma RereadSameBytes(op: Operand, d: OpndDesc, reg: bits3, stale: bits2, stale': bits2, code: Code, at: nat)
    requires Addressing(op) && d.size == op.memSize
    requires Holds(code, at, MemBytes(op, reg, stale))
    ensures RmBytes(ReadRm(d, code, at), reg, stale') == RmBytes(op, reg, stale) <==> Reproducible(op)
  {
    hide ReadRm, RmLength, Holds, HiField, MidField, LoField, Pack, LittleEndian;
    MemRoundTrip(op, d, reg, stale, code, at);
    var seen := ReadRm(d, code, at);
    if op.index != ESP {
      SeenSameBytes(op, reg, stale, stale');
    } else {
      assert DispBytes(seen) == DispBytes(op);
      if op.base == ESP {
        assert MemBytes(op, reg, stale)[1] == SibByte(op, stale);
        assert MemBytes(seen, reg, stale')[1] == SibByte(seen, stale');
        SibFields(op, stale);
        SibFields(seen, stale');
      } else {
        assert |MemBytes(seen, reg, stale')| == |MemBytes(op, reg, stale)| - 1;
      }
    }
  }

  /** The bytes do not depend on what the buffer held exactly when the SS field is assigned. */
  lemma BitsDetermined(op: Operand, reg: bits3)
    requires op.MemOpnd?
    ensures (forall stale, stale' :: MemBytes(op, reg, stale) == MemBytes(op, reg, stale'))
            <==> op.index.NoReg? || ValidScale(op.scale)
  {
    if !op.index.NoReg? && !ValidScale(op.scale) {
      SibFields(op, 0);
      SibFields(op, 1);
      assert MemBytes(op, reg, 0)[1] == SibByte(op, 0);
      assert MemBytes(op, reg, 1)[1] == SibByte(op, 1);
    } else {
      forall stale: bits2, stale': bits2 ensures MemBytes(op, reg, stale) == MemBytes(op, reg, stale') {
        assert SibBytes(op, stale) == SibBytes(op, stale');
      }
    }
  }

  /** An operand in the r/m position of a row: a memory operand, or the register the row reads back. */
  predicate RmOperand(d: OpndDesc, op: Operand) {
    if op.MemOpnd? then Addressing(op) && op.memSize == d.size
    else op.RegOpnd? && op.reg.Reg? && op.reg == FieldReg(d, op.reg.index)
  }

  /** Round trip of the r/m position for registers and memory alike. */
  lemma RmRoundTrip(op: Operand, d: OpndDesc, reg: bits3, stale: bits2, code: Code, at: nat)
    requires RmOperand(d, op)
    requires Holds(code, at, RmBytes(op, reg, stale))
    ensures MidField(At(code, at)) == reg
    ensures RmLength(code, at) == |RmBytes(op, reg, stale)|
    ensures ReadRm(d, code, at).Kind() == op.Kind() && ReadRm(d, code, at).Size() == op.Size()
    ensures ReadRm(d, code, at) == Seen(op) <==> !(op.MemOpnd? && op.index == ESP)
    ensures ReadRm(d, code, at) == op <==> !(op.MemOpnd? && op.index == ESP) && ScaleKept(op)
  {
    SeenUnchanged(op);
    if op.MemOpnd? {
      MemRoundTrip(op, d, reg, stale, code, at);
    } else {
      HoldsAt(code, at, RmBytes(op, reg, stale), 0);
      PackFields(3, reg, op.reg.index);
    }
  }
}
