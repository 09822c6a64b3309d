/**
 * The hash that selects an opcode: five bits per operand, three for its location
 * and two for its size.  On regular operands it loses nothing.
 */
module OperandHash {
  import opened Basics
  import opened X86

  const HASH_MAX: nat := 8192
  const NOHASH: byte := 0xFF

  /** Location and size of one operand: all the hash can see. */
  datatype Shape = Shape(kind: OpndKind, size: OpndSize)

  function ShapeOf(op: Operand): Shape { Shape(op.Kind(), op.Size()) }

  function Shapes(ops: seq<Operand>): (s: seq<Shape>)
    ensures |s| == |ops|
    ensures forall i :: 0 <= i < |ops| ==> s[i] == ShapeOf(ops[i])
  {
    seq(|ops|, i requires 0 <= i < |ops| => ShapeOf(ops[i]))
  }

  function SizeHash(s: OpndSize): byte {
    match s
    case Size8 => 3
    case Size16 => 2
    case Size32 => 1
    case Size64 => 0
    case _ => 0xFF
  }

  function KindHash(k: OpndKind): byte {
    match k
    case GPReg => 0
    case Mem => 4
    case Imm => 8
    case XMMReg => 12
    case SReg => 16
    case FPReg => 20
    case _ => 0xFF
  }

  /** Bitwise or of the two table entries; a valid kind and a valid size share no bits. */
  function ShapeHash(s: Shape): byte {
    if KindHash(s.kind) == 0xFF || SizeHash(s.size) == 0xFF then 0xFF else KindHash(s.kind) + SizeHash(s.size)
  }

  /** (h << 5) | p, for p below 32 or p == 0xFF. */
  function Push(h: nat, p: byte): nat {
    if p < 32 then h * 32 + p else (h / 8 * 8 + 7) * 32 + 31
  }

  function Hash(s: seq<Shape>): nat {
    if s == [] then 0 else Push(Hash(s[..|s| - 1]), ShapeHash(s[|s| - 1]))
  }

  /** The operands of the IA-32 table: a known location, 8 to 64 bits, no 64-bit general register. */
  predicate RegularShape(s: Shape) {
    KindHash(s.kind) != 0xFF && SizeHash(s.size) != 0xFF && s != Shape(GPReg, Size64)
  }

  predicate Regular(s: seq<Shape>) {
    |s| <= 3 && forall i :: 0 <= i < |s| ==> RegularShape(s[i])
  }

  lemma ShapeHashInjective(a: Shape, b: Shape)
    requires RegularShape(a) && RegularShape(b)
    ensures 0 < ShapeHash(a) < 32
    ensures ShapeHash(a) == ShapeHash(b) ==> a == b
  {
  }

  /** Equal hashes mean equal operand counts, locations and sizes. */
  lemma {:induction false} HashInjective(a: seq<Shape>, b: seq<Shape>)
    requires Regular(a) && Regular(b) && Hash(a) == Hash(b)
    ensures a == b
  {
    hide ShapeHash, RegularShape;
    if a != [] {
      ShapeHashInjective(a[|a| - 1], a[|a| - 1]);
    }
    if b != [] {
      ShapeHashInjective(b[|b| - 1], b[|b| - 1]);
    }
    if a != [] && b != [] {
      var i, j := |a| - 1, |b| - 1;
      DigitsEqual(Hash(a[..i]), ShapeHash(a[i]), Hash(b[..j]), ShapeHash(b[j]));
      ShapeHashInjective(a[i], b[j]);
      HashInjective(a[..i], b[..j]);
      assert a == a[..i] + [a[i]] && b == b[..j] + [b[j]];
    }
  }

  lemma DigitsEqual(q: nat, r: nat, q': nat, r': nat)
    requires r < 32 && r' < 32 && q * 32 + r == q' * 32 + r'
    ensures q == q' && r == r'
  {
  }

  /** A 64-bit general register contributes nothing: the one collision among 8- to 64-bit operands. */
  lemma {:induction false} WideRegisterCollides(s: seq<Shape>)
    requires Hash(s) == 0
    ensures Hash(s + [Shape(GPReg, Size64)]) == Hash(s)
  {
    var t := s + [Shape(GPReg, Size64)];
    assert t[..|t| - 1] == s;
  }

  /** The worst case that the table's notes reckon with, by the codes the table really has. */
  lemma WorstCase()
    ensures Hash([Shape(GPReg, Size32), Shape(GPReg, Size32), Shape(Imm, Size32)]) == 1065
    ensures Hash([Shape(GPReg, Size8), Shape(Mem, Size16), Shape(XMMReg, Size64)]) == 3 * 1024 + (4 + 2) * 32 + 12
    ensures Hash([Shape(SReg, Size16), Shape(FPReg, Size64)]) == (16 + 2) * 32 + 20
  {
    Hash3(Shape(GPReg, Size32), Shape(GPReg, Size32), Shape(Imm, Size32));
    Hash3(Shape(GPReg, Size8), Shape(Mem, Size16), Shape(XMMReg, Size64));
    Hash2(Shape(SReg, Size16), Shape(FPReg, Size64));
  }

  lemma Hash2(a: Shape, b: Shape)
    ensures Hash([a, b]) == Push(Push(0, ShapeHash(a)), ShapeHash(b))
  {
    assert [a, b][..1] == [a];
    Hash1(a);
  }

  lemma Hash3(a: Shape, b: Shape, c: Shape)
    ensures Hash([a, b, c]) == Push(Push(Push(0, ShapeHash(a)), ShapeHash(b)), ShapeHash(c))
  {
    assert [a, b, c][..2] == [a, b];
    Hash2(a, b);
  }

  /** Which hashes index the map: all of up to two operands, and three-operand lists led by a GP register or memory. */
  lemma {:induction false} HashInRange(s: seq<Shape>)
    requires Regular(s)
    ensures Hash(s) < HASH_MAX <==> |s| < 3 || s[0].kind == GPReg || s[0].kind == Mem
  {
    hide RegularShape, ShapeHash, Hash;
    if |s| == 0 {
      HashNone();
    } else if |s| == 1 {
      FirstHash(s[0]);
      Hash1(s[0]);
      assert s == [s[0]];
    } else if |s| == 2 {
      FirstHash(s[0]);
      FirstHash(s[1]);
      Hash2(s[0], s[1]);
      assert s == [s[0], s[1]];
    } else {
      FirstHash(s[0]);
      FirstHash(s[1]);
      FirstHash(s[2]);
      Hash3(s[0], s[1], s[2]);
      assert s == [s[0], s[1], s[2]];
    }
  }

  /** Five bits, of which the upper two are clear exactly for a GP register or memory. */
  lemma FirstHash(a: Shape)
    requires RegularShape(a)
    ensures ShapeHash(a) < 32 && (ShapeHash(a) < 8 <==> a.kind == GPReg || a.kind == Mem)
  {
  }

  lemma HashNone()
    ensures Hash([]) == 0
  {
  }

  lemma Hash1(a: Shape)
    ensures Hash([a]) == Push(0, ShapeHash(a))
  {
    assert [a][..0] == [];
  }

  /** EncoderBase::Operands: up to three operands and their running hash. */
  class Operands {
    var items: seq<Operand>
    var hash: nat

    ghost predicate Valid()
      reads this
    {
      |items| <= 3 && hash == Hash(Shapes(items))
    }

    constructor ()
      ensures Valid() && items == []
    {
      items, hash := [], 0;
    }

    method Add(op: Operand)
      requires Valid() && |items| < 3
      modifies this
      ensures Valid() && items == old(items) + [op]
    {
      hash := Push(hash, ShapeHash(ShapeOf(op)));
      items := items + [op];
      assert Shapes(items)[..|items| - 1] == Shapes(old(items));
    }

    method Clear()
      modifies this
      ensures Valid() && items == []
    {
      items, hash := [], 0;
    }
  }
}
