/**
 * Vocabulary shared by the encoder, the decoder and the table compiler: operand
 * kinds and sizes, register names, operands, ModR/M and SIB bit fields, and the
 * little-endian fields of section 2.1 of the Intel 64 and IA-32 SDM, Volume 2A.
 */
module X86 {
  import opened Basics

  type bits2 = x: int | 0 <= x < 4
  type bits3 = x: int | 0 <= x < 8
  type int32 = x: int | -0x8000_0000 <= x < 0x8000_0000

  // ----- operands -----

  datatype OpndKind = NullKind | GPReg | SReg | FPReg | XMMReg | OtherReg | Imm | Mem

  datatype OpndSize = NullSize | Size8 | Size16 | Size32 | Size64 | Size80 | Size128

  datatype RegName = NoReg | Reg(kind: OpndKind, size: OpndSize, index: bits3)

  const ESP: RegName := Reg(GPReg, Size32, 4)
  const EBP: RegName := Reg(GPReg, Size32, 5)

  /** The index a register contributes to a ModR/M or SIB field; the null name contributes 0. */
  function HwIndex(r: RegName): bits3 {
    if r.NoReg? then 0 else r.index
  }

  datatype Operand =
    | NoOpnd
    | RegOpnd(reg: RegName)
    | ImmOpnd(immSize: OpndSize, imm: int)
    | MemOpnd(memSize: OpndSize, base: RegName, index: RegName, scale: nat, disp: int32)
  {
    function Kind(): OpndKind {
      match this
      case NoOpnd => NullKind
      case RegOpnd(r) => if r.NoReg? then NullKind else r.kind
      case ImmOpnd(_, _) => Imm
      case MemOpnd(_, _, _, _, _) => Mem
    }

    function Size(): OpndSize {
      match this
      case NoOpnd => NullSize
      case RegOpnd(r) => if r.NoReg? then NullSize else r.size
      case ImmOpnd(s, _) => s
      case MemOpnd(s, _, _, _, _) => s
    }

    /** The register, or the null name when the operand is not a GP, FP or XMM register. */
    function RegOf(): RegName {
      if RegOpnd? && Kind() in {GPReg, FPReg, XMMReg} then reg else NoReg
    }

    /** The immediate value, or 0 when the operand is not an immediate. */
    function ImmOf(): int {
      if ImmOpnd? then imm else 0
    }
  }

  // ----- ModR/M and SIB bit fields: two bits, three bits, three bits -----

  function Pack(hi: bits2, mid: bits3, lo: bits3): byte {
    hi * 64 + mid * 8 + lo
  }

  function HiField(b: byte): bits2 { b / 64 }
  function MidField(b: byte): bits3 { b / 8 % 8 }
  function LoField(b: byte): bits3 { b % 8 }

  /** Assignments to a single bit field leave the other bits of the byte alone. */
  function SetHi(b: byte, v: bits2): byte { Pack(v, MidField(b), LoField(b)) }
  function SetMid(b: byte, v: bits3): byte { Pack(HiField(b), v, LoField(b)) }
  function SetLo(b: byte, v: bits3): byte { Pack(HiField(b), MidField(b), v) }

  lemma PackFields(hi: bits2, mid: bits3, lo: bits3)
    ensures HiField(Pack(hi, mid, lo)) == hi
    ensures MidField(Pack(hi, mid, lo)) == mid
    ensures LoField(Pack(hi, mid, lo)) == lo
  {
    var b: int := hi * 64 + mid * 8 + lo;
    assert b / 64 == hi && b / 8 == hi * 8 + mid && b % 8 == lo;
    assert Pack(hi, mid, lo) == b;
  }

  lemma FieldsPack(b: byte)
    ensures Pack(HiField(b), MidField(b), LoField(b)) == b
  {
    var q: int := b / 8;
    assert b / 64 == q / 8 && b == q * 8 + b % 8 && q == q / 8 * 8 + q % 8;
  }

  lemma SetFields(b: byte, hi: bits2, mid: bits3, lo: bits3)
    ensures SetLo(SetHi(b, hi), lo) == SetHi(SetLo(b, lo), hi) == Pack(hi, MidField(b), lo)
    ensures SetLo(SetMid(SetHi(b, hi), mid), lo) == SetMid(SetHi(SetLo(b, lo), hi), mid) == Pack(hi, mid, lo)
    ensures HiField(SetLo(b, lo)) == HiField(b)
  {
    PackFields(hi, MidField(b), LoField(b));
    PackFields(HiField(b), MidField(b), lo);
    PackFields(hi, MidField(b), lo);
    PackFields(hi, mid, LoField(b));
  }

  // ----- code bytes -----

  type Code = seq<byte>

  /** Memory beyond the modelled code reads as zero. */
  function At(code: Code, i: nat): byte {
    if i < |code| then code[i] else 0
  }

  /** The bytes s lie in the code at position at. */
  predicate Holds(code: Code, at: nat, s: seq<byte>) {
    at + |s| <= |code| && code[at..at + |s|] == s
  }

  lemma HoldsAt(code: Code, at: nat, s: seq<byte>, i: nat)
    requires Holds(code, at, s) && i < |s|
    ensures At(code, at + i) == s[i]
  {
    assert code[at..at + |s|][i] == s[i];
  }

  lemma HoldsSplit(code: Code, at: nat, s: seq<byte>, t: seq<byte>)
    requires Holds(code, at, s + t)
    ensures Holds(code, at, s) && Holds(code, at + |s|, t)
  {
    assert code[at..at + |s|] == (s + t)[..|s|];
    assert code[at + |s|..at + |s| + |t|] == (s + t)[|s|..];
  }

  // ----- little-endian fields -----

  datatype Width = W1 | W2 | W4
  {
    function Count(): nat {
      match this case W1 => 1 case W2 => 2 case W4 => 4
    }

    /** Half the number of values of the field: the bound of the signed range. */
    function Half(): nat {
      match this case W1 => 0x80 case W2 => 0x8000 case W4 => 0x8000_0000
    }

    function ImmSize(): OpndSize {
      match this case W1 => Size8 case W2 => Size16 case W4 => Size32
    }
  }

  /** The low-order bytes of v, least significant first (a truncating store). */
  function LittleEndian(w: Width, v: int): (s: seq<byte>)
    ensures |s| == w.Count()
  {
    match w
    case W1 => [v % 256]
    case W2 => [v % 256, v / 256 % 256]
    case W4 => [v % 256, v / 256 % 256, v / 65536 % 256, v / 16777216 % 256]
  }

  /** The number that bytes denote, the first being the least significant. */
  function Value(s: seq<byte>): int {
    if s == [] then 0 else (s[0] as int) + 256 * Value(s[1..])
  }

  lemma Value1(a: byte)
    ensures Value([a]) == a
  {
    assert [a][1..] == [];
  }

  lemma Value2(a: byte, b: byte)
    ensures Value([a, b]) == (a as int) + 256 * (b as int)
  {
    assert [a, b][1..] == [b];
    Value1(b);
  }

  lemma Value4(a: byte, b: byte, c: byte, d: byte)
    ensures Value([a, b, c, d]) == (a as int) + 256 * (b as int) + 65536 * (c as int) + 16777216 * (d as int)
  {
    assert [a, b, c, d][1..] == [b, c, d] && [b, c, d][1..] == [c, d];
    Value2(c, d);
  }

  /** The bytes stored denote the value modulo the number of values of the field. */
  lemma StoresValue(w: Width, v: int)
    ensures Value(LittleEndian(w, v)) == v % (2 * w.Half())
  {
    var s := LittleEndian(w, v);
    match w
    case W1 =>
      Value1(s[0]);
    case W2 =>
      Value2(s[0], s[1]);
      Recombine2(v);
    case W4 =>
      Value4(s[0], s[1], s[2], s[3]);
      Recombine4(v);
  }

  /** The signed value of an unsigned field. */
  function Signed(w: Width, u: int): int {
    if u < w.Half() then u else u - 2 * w.Half()
  }

  /** A sign-extending load. */
  function ReadSigned(code: Code, at: nat, w: Width): int {
    match w
    case W1 => Signed(w, At(code, at))
    case W2 => Signed(w, At(code, at) + 256 * At(code, at + 1))
    case W4 => Signed(w, At(code, at) + 256 * At(code, at + 1) + 65536 * At(code, at + 2) + 16777216 * At(code, at + 3))
  }

  predicate InSignedRange(w: Width, v: int) {
    -(w.Half() as int) <= v < w.Half()
  }

  /** Storing and loading gives the value back exactly when it is in the signed range of the field. */
  lemma ReadBack(code: Code, at: nat, w: Width, v: int)
    requires Holds(code, at, LittleEndian(w, v))
    ensures InSignedRange(w, ReadSigned(code, at, w))
    ensures ReadSigned(code, at, w) == v <==> InSignedRange(w, v)
  {
    LoadsResidue(code, at, w, v);
    SignedResidue(w, v);
  }

  lemma LoadsResidue(code: Code, at: nat, w: Width, v: int)
    requires Holds(code, at, LittleEndian(w, v))
    ensures ReadSigned(code, at, w) == Signed(w, v % (2 * w.Half()))
  {
    var s := LittleEndian(w, v);
    HoldsAt(code, at, s, 0);
    match w
    case W1 =>
    case W2 =>
      HoldsAt(code, at, s, 1);
      Recombine2(v);
    case W4 =>
      HoldsAt(code, at, s, 1);
      HoldsAt(code, at, s, 2);
      HoldsAt(code, at, s, 3);
      Recombine4(v);
  }

  lemma SignedResidue(w: Width, v: int)
    ensures InSignedRange(w, Signed(w, v % (2 * w.Half())))
    ensures Signed(w, v % (2 * w.Half())) == v <==> InSignedRange(w, v)
  {
    match w
    case W1 => assert 2 * w.Half() == 0x100;
    case W2 => assert 2 * w.Half() == 0x1_0000;
    case W4 => assert 2 * w.Half() == 0x1_0000_0000;
  }

  lemma Recombine2(v: int)
    ensures v % 256 + 256 * (v / 256 % 256) == v % 0x1_0000
  {
  }

  lemma Recombine4(v: int)
    ensures v % 256 + 256 * (v / 256 % 256) + 65536 * (v / 65536 % 256) + 16777216 * (v / 16777216 % 256)
         == v % 0x1_0000_0000
  {
    var q1 := v / 256;
    var q2 := v / 65536;
    var q3 := v / 16777216;
    assert q2 == q1 / 256 && q3 == q2 / 256;
  }
}
