/**
 * The instruction decoder: a prefix scan, then a search of the table in order for the
 * first row whose bytes match, all candidates sharing one instruction record.
 */
module Decoder {
  import opened Basics
  import opened X86
  import opened Rows
  import opened ModRM

  // ----- prefixes -----

  const GROUP1: nat := 0
  const GROUP2: nat := 1
  const GROUP4: nat := 3

  /** The group of the prefix at a position: REP and REPNE before 0x0F are opcode bytes, and 0x66 always is. */
  function PrefixGroup(code: Code, at: nat): (g: Option<nat>)
    ensures g.Some? ==> (g.value == 0 || g.value == 1 || g.value == 3) && At(code, at) != 0
  {
    var b := At(code, at);
    if b == 0xF2 || b == 0xF3 then (if At(code, at + 1) == 0x0F then None else Some(GROUP1))
    else if b == 0xF0 then Some(GROUP1)
    else if b == 0x2E || b == 0x36 || b == 0x3E || b == 0x26 || b == 0x64 || b == 0x65 then Some(GROUP2)
    else if b == 0x67 then Some(GROUP4)
    else None
  }

  /** The end of the maximal run of prefixes. */
  function PrefixEnd(code: Code, at: nat): (end: nat)
    ensures at <= end
    ensures forall p :: at <= p < end ==> PrefixGroup(code, p).Some?
    ensures PrefixGroup(code, end).None?
    decreases |code| - at
  {
    if PrefixGroup(code, at).None? then at else PrefixEnd(code, at + 1)
  }

  /** Some group occurs twice in the run of prefixes. */
  ghost predicate RepeatsGroup(code: Code, at: nat) {
    exists p, q :: at <= p < q < PrefixEnd(code, at) && PrefixGroup(code, p) == PrefixGroup(code, q)
  }

  /** The first n bytes are prefixes of different groups, and each is recorded in its group. */
  ghost predicate Scanned(code: Code, at: nat, n: nat, pref: seq<byte>) {
    && |pref| == 4 && pref[2] == 0 && n + FreeGroups(pref) == 3 && at + n <= PrefixEnd(code, at)
    && (forall p :: at <= p < at + n ==>
          PrefixGroup(code, p).Some? && pref[PrefixGroup(code, p).value] == At(code, p) != 0)
    && (forall g :: 0 <= g < 4 && pref[g] != 0 ==> exists p :: at <= p < at + n && PrefixGroup(code, p) == Some(g))
    && (forall p, q :: at <= p < q < at + n ==> PrefixGroup(code, p) != PrefixGroup(code, q))
  }

  function FreeGroups(pref: seq<byte>): nat
    requires |pref| == 4
  {
    (if pref[0] == 0 then 1 else 0) + (if pref[1] == 0 then 1 else 0) + (if pref[3] == 0 then 1 else 0)
  }

  lemma NothingScanned(code: Code, at: nat)
    ensures Scanned(code, at, 0, [0, 0, 0, 0])
  {
  }

  /** A byte that is no prefix ends the run; a prefix of a group already recorded repeats it. */
  lemma ScanEnds(code: Code, at: nat, n: nat, pref: seq<byte>)
    requires Scanned(code, at, n, pref)
    ensures PrefixGroup(code, at + n).None? ==>
              && PrefixEnd(code, at) == at + n && n <= 3 && !RepeatsGroup(code, at)
              && forall p :: at <= p < at + n ==>
                   PrefixGroup(code, p).Some? && pref[PrefixGroup(code, p).value] == At(code, p)
    ensures PrefixGroup(code, at + n).Some? && pref[PrefixGroup(code, at + n).value] != 0 ==> RepeatsGroup(code, at)
  {
    hide PrefixGroup, PrefixEnd, At;
    var group := PrefixGroup(code, at + n);
    if group.Some? && pref[group.value] != 0 {
      var p :| at <= p < at + n && PrefixGroup(code, p) == group;
      assert at + n < PrefixEnd(code, at);
    }
  }

  lemma ScanGoesOn(code: Code, at: nat, n: nat, pref: seq<byte>)
    requires Scanned(code, at, n, pref) && PrefixGroup(code, at + n).Some?
    requires pref[PrefixGroup(code, at + n).value] == 0
    ensures var pref' := pref[PrefixGroup(code, at + n).value := At(code, at + n)];
            Scanned(code, at, n + 1, pref') && FreeGroups(pref') < FreeGroups(pref)
  {
    hide PrefixGroup, PrefixEnd, At;
    var group := PrefixGroup(code, at + n);
    var pref' := pref[group.value := At(code, at + n)];
    forall g | 0 <= g < 4 && pref'[g] != 0 ensures exists p :: at <= p < at + n + 1 && PrefixGroup(code, p) == Some(g) {
      if g == group.value {
        assert PrefixGroup(code, at + n) == Some(g);
      }
    }
    forall p | at <= p < at + n ensures PrefixGroup(code, p) != group {
      assert pref[PrefixGroup(code, p).value] != 0;
    }
  }

  // ----- prefixes, byte by byte -----

  predicate LockOrRepeat(b: byte) { b == 0xF0 || b == 0xF2 || b == 0xF3 }

  predicate Segment(b: byte) { b == 0x2E || b == 0x36 || b == 0x3E || b == 0x26 || b == 0x64 || b == 0x65 }

  predicate AddressSize(b: byte) { b == 0x67 }

  /** A prefix, judged by the byte and the one after it. */
  predicate PrefixHere(code: Code, p: nat) {
    var b, next := At(code, p), At(code, p + 1);
    (LockOrRepeat(b) && (b == 0xF0 || next != 0x0F)) || Segment(b) || AddressSize(b)
  }

  predicate SameClass(b: byte, c: byte) {
    (LockOrRepeat(b) && LockOrRepeat(c)) || (Segment(b) && Segment(c)) || (AddressSize(b) && AddressSize(c))
  }

  /** The scan ends at the first byte that is no prefix. */
  lemma {:induction false} PrefixRun(code: Code, at: nat, p: nat)
    requires at <= p
    ensures p < PrefixEnd(code, at) <==> forall k :: at <= k <= p ==> PrefixHere(code, k)
  {
    assert forall k: nat :: PrefixGroup(code, k).Some? <==> PrefixHere(code, k);
    assert !PrefixHere(code, PrefixEnd(code, at));
  }

  /** Which bytes the scan takes for a prefix. */
  lemma PrefixBytes(code: Code, at: nat)
    ensures var b, next := At(code, at), At(code, at + 1);
            PrefixEnd(code, at) > at <==>
              b in {0xF0, 0x2E, 0x36, 0x3E, 0x26, 0x64, 0x65, 0x67} || (b in {0xF2, 0xF3} && next != 0x0F)
  {
    PrefixRun(code, at, at);
  }

  /** Prefixes are refused exactly when two of one class stand in one run. */
  lemma RepeatsExact(code: Code, at: nat)
    ensures RepeatsGroup(code, at) <==>
            exists p, q :: at <= p < q && SameClass(At(code, p), At(code, q)) && q < PrefixEnd(code, at)
  {
    forall p: nat, q: nat | PrefixHere(code, p) && PrefixHere(code, q)
      ensures PrefixGroup(code, p) == PrefixGroup(code, q) <==> SameClass(At(code, p), At(code, q))
    {
    }
    forall k | at <= k < PrefixEnd(code, at) ensures PrefixHere(code, k) {
      PrefixRun(code, at, k);
    }
  }

  /** Two prefixes and no more are refused exactly when they are of one class. */
  lemma PairRefused(code: Code, at: nat)
    requires PrefixEnd(code, at) == at + 2
    ensures var b, c := At(code, at), At(code, at + 1);
            RepeatsGroup(code, at) <==>
              || (b in {0xF0, 0xF2, 0xF3} && c in {0xF0, 0xF2, 0xF3})
              || (b in {0x2E, 0x36, 0x3E, 0x26, 0x64, 0x65} && c in {0x2E, 0x36, 0x3E, 0x26, 0x64, 0x65})
              || (b == 0x67 && c == 0x67)
  {
    RepeatsExact(code, at);
    if SameClass(At(code, at), At(code, at + 1)) {
      assert at <= at < at + 1;
    }
  }

  /** Each class of prefixes has its slot, and operand-size prefixes are never recorded. */
  predicate SlotsByClass(pref: seq<byte>)
    requires |pref| == 4
  {
    && (pref[0] != 0 ==> LockOrRepeat(pref[0])) && (pref[1] != 0 ==> Segment(pref[1]))
    && pref[2] == 0 && (pref[3] != 0 ==> AddressSize(pref[3]))
  }

  lemma ScannedSlots(code: Code, at: nat, n: nat, pref: seq<byte>)
    requires Scanned(code, at, n, pref)
    ensures SlotsByClass(pref)
  {
    forall g | 0 <= g < 4 && pref[g] != 0
      ensures exists p :: at <= p < at + n && PrefixGroup(code, p) == Some(g) && pref[g] == At(code, p)
    {
      var p :| at <= p < at + n && PrefixGroup(code, p) == Some(g);
    }
  }

  // ----- one row against the bytes -----

  /** Whether an element accepts the byte it meets: only /digit, +r and +i can refuse. */
  predicate AuxAccepts(aux: Aux, code: Code, at: nat) {
    match aux
    case SlashNum(digit) => MidField(At(code, at)) == digit
    case PlusReg(_, base) => base <= At(code, at) <= base + 7
    case PlusI(base) => base <= At(code, at) <= base + 7
    case _ => true
  }

  /** Number of operands an element yields; +i yields none. */
  function Yields(aux: Aux): nat {
    if aux.PlusI? then 0 else aux.Consumes()
  }

  /** The operands an element yields when it is met after argc others. */
  function AuxOperands(row: OpcodeDesc, aux: Aux, code: Code, at: nat, argc: nat): (s: seq<Operand>)
    requires argc + Yields(aux) <= 3 && AuxAccepts(aux, code, at)
    ensures |s| == Yields(aux)
  {
    match aux
    case NoAux => []
    case SlashR =>
      var mid := MidField(At(code, at));
      if Mem in row.opnds[argc].kinds then
        [ReadRm(row.opnds[argc], code, at), RegOpnd(FieldReg(row.opnds[argc + 1], mid))]
      else
        [RegOpnd(FieldReg(row.opnds[argc], mid)), ReadRm(row.opnds[argc + 1], code, at)]
    case SlashNum(_) => [ReadRm(row.opnds[argc], code, at)]
    case ImmField(w) => [ImmOpnd(w.ImmSize(), ReadSigned(code, at, w))]
    case RelField(w) => [ImmOpnd(w.ImmSize(), ReadSigned(code, at, w))]
    case PlusReg(w, base) => [RegOpnd(Reg(GPReg, w.ImmSize(), At(code, at) - base))]
    case PlusI(_) => []
  }

  function AuxLength(aux: Aux, code: Code, at: nat): nat {
    match aux
    case NoAux => 0
    case SlashR => RmLength(code, at)
    case SlashNum(_) => RmLength(code, at)
    case ImmField(w) => w.Count()
    case RelField(w) => w.Count()
    case PlusReg(_, _) => 1
    case PlusI(_) => 1
  }

  /** What the search relies on: room for the operands, and no element that can refuse after another was taken. */
  predicate Searchable(row: OpcodeDesc) {
    && Yields(row.aux0) + Yields(row.aux1) <= 3
    && (row.aux1.NoAux? || row.aux1.Immediate())
    && (row.aux0.NoAux? ==> row.aux1.NoAux? && row.opcode != [])
  }

  predicate OpcodeMatches(row: OpcodeDesc, code: Code, at: nat) {
    forall i :: 0 <= i < |row.opcode| ==> At(code, at + i) == row.opcode[i]
  }

  /** The row matches the bytes at a position. */
  predicate RowAccepts(row: OpcodeDesc, code: Code, at: nat) {
    OpcodeMatches(row, code, at) && AuxAccepts(row.aux0, code, at + |row.opcode|)
  }

  function RowOperands(row: OpcodeDesc, code: Code, at: nat): (s: seq<Operand>)
    requires Searchable(row) && RowAccepts(row, code, at)
    ensures |s| <= 3
  {
    var at0 := at + |row.opcode|;
    AuxOperands(row, row.aux0, code, at0, 0) +
    AuxOperands(row, row.aux1, code, at0 + AuxLength(row.aux0, code, at0), Yields(row.aux0))
  }

  function RowLength(row: OpcodeDesc, code: Code, at: nat): nat {
    var at0 := at + |row.opcode|;
    var n0 := AuxLength(row.aux0, code, at0);
    |row.opcode| + n0 + AuxLength(row.aux1, code, at0 + n0)
  }

  /** Row i of mnemonic mn is the first in table order that matches; mnemonic 0 is not tried. */
  ghost predicate FirstInTable(table: Table, code: Code, at: nat, mn: nat, i: nat) {
    && 1 <= mn < |table| && FirstRow(table[mn], code, at, i)
    && forall m :: 1 <= m < mn ==> NoRow(table[m], code, at)
  }

  ghost predicate FirstRow(rows: seq<OpcodeDesc>, code: Code, at: nat, i: nat) {
    i < |rows| && RowAccepts(rows[i], code, at) && forall j :: 0 <= j < i ==> !RowAccepts(rows[j], code, at)
  }

  ghost predicate NoRow(rows: seq<OpcodeDesc>, code: Code, at: nat) {
    forall j :: 0 <= j < |rows| ==> !RowAccepts(rows[j], code, at)
  }

  ghost predicate SearchableTable(table: Table) {
    forall mn, i :: 0 <= mn < |table| && 0 <= i < |table[mn]| ==> Searchable(table[mn][i])
  }

  /** Three operand slots with new operands put from position k on. */
  function Fill(slots: seq<Operand>, k: nat, s: seq<Operand>): (r: seq<Operand>)
    requires |slots| == 3 && k + |s| <= 3
    ensures |r| == 3
  {
    slots[..k] + s + slots[k + |s|..]
  }

  /** The byte that adding a register makes. */
  function Added(base: byte, r: bits3): int { base + r }

  /** /digit, +r and +i accept exactly the bytes that some register or mod and r/m field can make of them. */
  lemma AcceptsExactly(aux: Aux, code: Code, at: nat)
    ensures aux.SlashNum? ==>
              (AuxAccepts(aux, code, at) <==> exists hi: bits2, lo: bits3 :: At(code, at) == Pack(hi, aux.digit, lo))
    ensures aux.PlusReg? || aux.PlusI? ==>
              (AuxAccepts(aux, code, at) <==> exists r: bits3 :: At(code, at) == Added(aux.base, r))
    ensures !aux.SlashNum? && !aux.PlusReg? && !aux.PlusI? ==> AuxAccepts(aux, code, at)
  {
    var b := At(code, at);
    if aux.SlashNum? {
      FieldsPack(b);
      if MidField(b) == aux.digit {
        assert b == Pack(HiField(b), aux.digit, LoField(b));
      } else {
        forall hi: bits2, lo: bits3 ensures b != Pack(hi, aux.digit, lo) {
          PackFields(hi, aux.digit, lo);
        }
      }
    } else if (aux.PlusReg? || aux.PlusI?) && AuxAccepts(aux, code, at) {
      assert b == Added(aux.base, b - aux.base);
    }
  }

  /** A second element is an immediate, which accepts any byte. */
  lemma NeverRefused(row: OpcodeDesc, code: Code, at: nat)
    requires Searchable(row)
    ensures forall p: nat :: AuxAccepts(row.aux1, code, p)
    ensures AuxAccepts(NoAux, code, at)
    ensures forall k, p: nat :: k <= 3 ==> AuxOperands(row, NoAux, code, p, k) == []
    ensures forall p: nat :: AuxLength(NoAux, code, p) == 0
  {
  }

  lemma FillTwice(slots: seq<Operand>, s: seq<Operand>, mid: seq<Operand>, t: seq<Operand>)
    requires |slots| == 3 && |s| + |t| <= 3 && mid == Fill(slots, 0, s)
    ensures Fill(mid, |s|, t) == Fill(slots, 0, s + t)
  {
  }

  lemma PositiveLength(row: OpcodeDesc, code: Code, at: nat)
    requires Searchable(row)
    ensures RowLength(row, code, at) > 0
  {
  }

  // ----- the decoder -----

  class Inst {
    var mn: nat
    var prefc: nat
    var pref: seq<byte>
    var size: nat
    var argc: nat
    var operands: seq<Operand>
    var row: nat

    ghost predicate Valid()
      reads this
    {
      |pref| == 4 && |operands| == 3
    }

    constructor ()
      ensures Valid() && mn == 0 && prefc == 0 && pref == [0, 0, 0, 0] && size == 0
      ensures argc == 0 && operands == [NoOpnd, NoOpnd, NoOpnd]
    {
      mn, prefc, pref, size := 0, 0, [0, 0, 0, 0], 0;
      argc, operands, row := 0, [NoOpnd, NoOpnd, NoOpnd], 0;
    }

    method Push(op: Operand)
      requires Valid() && argc < 3
      modifies this`argc, this`operands
      ensures Valid() && argc == old(argc) + 1 && operands == Fill(old(operands), old(argc), [op])
    {
      operands := operands[argc := op];
      argc := argc + 1;
    }

    /**
     * fill_prefs: the number of prefixes, or nothing when a group repeats.  The run of prefixes
     * is never longer than three, since no prefix falls in the operand-size group.
     */
    method FillPrefs(code: Code, at: nat) returns (count: Option<nat>)
      requires Valid() && prefc == 0 && pref == [0, 0, 0, 0]
      modifies this`prefc, this`pref
      ensures Valid()
      ensures count.None? <==> RepeatsGroup(code, at)
      ensures count.Some? ==> count.value == prefc == PrefixEnd(code, at) - at <= 3
      ensures count.Some? ==> forall p :: at <= p < at + prefc ==> pref[PrefixGroup(code, p).value] == At(code, p)
      ensures SlotsByClass(pref)
    {
      hide PrefixGroup, PrefixEnd, At, Scanned, RepeatsGroup;
      NothingScanned(code, at);
      while true
        invariant Valid() && Scanned(code, at, prefc, pref)
        decreases FreeGroups(pref)
      {
        var group := PrefixGroup(code, at + prefc);
        ScanEnds(code, at, prefc, pref);
        ScannedSlots(code, at, prefc, pref);
        if group.None? {
          return Some(prefc);
        }
        if pref[group.value] != 0 {
          return None;
        }
        ScanGoesOn(code, at, prefc, pref);
        pref := pref[group.value := At(code, at + prefc)];
        prefc := prefc + 1;
      }
    }

    /** decodeModRM: the operand in the r/m position becomes the next operand. */
    method DecodeModRM(row: OpcodeDesc, code: Code, at: nat) returns (next: nat)
      requires Valid() && argc < 3
      modifies this`operands
      ensures Valid() && next == at + RmLength(code, at)
      ensures operands == old(operands)[argc := ReadRm(row.opnds[argc], code, at)]
    {
      hide HiField, MidField, LoField, ReadSigned;
      var d := row.opnds[argc];
      var modrm := At(code, at);
      next := at + 1;
      var base, index, scale, disp := NoReg, NoReg, 0, 0;
      if HiField(modrm) == 3 {
        operands := operands[argc := RegOpnd(FieldReg(d, LoField(modrm)))];
        return;
      }
      var sib := At(code, next);
      if LoField(modrm) == 4 {
        next := next + 1;
        scale := match HiField(sib) case 0 => 1 case 1 => 2 case 2 => 4 case _ => 8;
        if MidField(sib) != 4 {
          index := GP32(MidField(sib));
        }
        if LoField(sib) != 5 || HiField(modrm) != 0 {
          base := GP32(LoField(sib));
        }
      } else if HiField(modrm) != 0 || LoField(modrm) != 5 {
        base := GP32(LoField(modrm));
      }
      if HiField(modrm) == 2 {
        disp := ReadDisp(code, next, Some(W4));
        next := next + 4;
      } else if HiField(modrm) == 1 {
        disp := ReadDisp(code, next, Some(W1));
        next := next + 1;
      } else if LoField(modrm) == 5 {
        disp := ReadDisp(code, next, Some(W4));
        next := next + 4;
      } else if LoField(modrm) == 4 && LoField(sib) == 5 {
        disp := ReadDisp(code, next, Some(W4));
        next := next + 4;
      }
      operands := operands[argc := MemOpnd(d.size, base, index, scale, disp)];
    }

    /** decode_aux: a refused element changes nothing. */
    method DecodeAux(row: OpcodeDesc, aux: Aux, code: Code, at: nat) returns (ok: bool, next: nat)
      requires Valid() && argc + Yields(aux) <= 3 && !aux.NoAux?
      modifies this`argc, this`operands
      ensures Valid() && ok == AuxAccepts(aux, code, at)
      ensures !ok ==> argc == old(argc) && operands == old(operands)
      ensures ok ==> && next == at + AuxLength(aux, code, at)
                     && argc == old(argc) + Yields(aux)
                     && operands == Fill(old(operands), old(argc), AuxOperands(row, aux, code, at, old(argc)))
    {
      hide HiField, MidField, LoField, ReadSigned, ReadRm, RmLength, FieldReg, At;
      ok, next := true, at;
      match aux
      case SlashR =>
        var mid := MidField(At(code, at));
        if Mem in row.opnds[argc].kinds {
          next := DecodeModRM(row, code, at);
          argc := argc + 1;
          operands := operands[argc := RegOpnd(FieldReg(row.opnds[argc], mid))];
        } else {
          operands := operands[argc := RegOpnd(FieldReg(row.opnds[argc], mid))];
          argc := argc + 1;
          next := DecodeModRM(row, code, at);
        }
        argc := argc + 1;
      case SlashNum(digit) =>
        if MidField(At(code, at)) != digit {
          return false, at;
        }
        next := DecodeModRM(row, code, at);
        argc := argc + 1;
      case ImmField(w) =>
        Push(ImmOpnd(w.ImmSize(), ReadSigned(code, at, w)));
        next := at + w.Count();
      case RelField(w) =>
        Push(ImmOpnd(w.ImmSize(), ReadSigned(code, at, w)));
        next := at + w.Count();
      case PlusReg(w, base) =>
        if !(base <= At(code, at) <= base + 7) {
          return false, at;
        }
        Push(RegOpnd(Reg(GPReg, w.ImmSize(), At(code, at) - base)));
        next := at + 1;
      case PlusI(base) =>
        if !(base <= At(code, at) <= base + 7) {
          return false, at;
        }
        next := at + 1;
    }

    /** One candidate of the search: the instruction record changes only if the row matches. */
    method TryRow(row: OpcodeDesc, code: Code, at: nat) returns (ok: bool, next: nat)
      requires Valid() && argc == 0 && Searchable(row)
      modifies this`argc, this`operands
      ensures Valid() && ok == RowAccepts(row, code, at)
      ensures !ok ==> argc == 0 && operands == old(operands)
      ensures ok ==> && next == at + RowLength(row, code, at)
                     && argc == |RowOperands(row, code, at)|
                     && operands == Fill(old(operands), 0, RowOperands(row, code, at))
    {
      hide AuxAccepts, AuxOperands, AuxLength;
      var i := 0;
      while i < |row.opcode|
        invariant 0 <= i <= |row.opcode|
        invariant forall j :: 0 <= j < i ==> At(code, at + j) == row.opcode[j]
      {
        if At(code, at + i) != row.opcode[i] {
          return false, at;
        }
        i := i + 1;
      }
      NeverRefused(row, code, at);
      ok, next := true, at + |row.opcode|;
      if !row.aux0.NoAux? {
        ok, next := DecodeAux(row, row.aux0, code, next);
        if ok && !row.aux1.NoAux? {
          ghost var first := operands;
          ok, next := DecodeAux(row, row.aux1, code, next);
          FillTwice(old(operands), AuxOperands(row, row.aux0, code, at + |row.opcode|, 0), first,
                    RowOperands(row, code, at)[Yields(row.aux0)..]);
        }
      }
    }

    /** try_mn: the first row of a mnemonic that matches. */
    method TryMn(rows: seq<OpcodeDesc>, code: Code, at: nat) returns (found: Option<nat>, next: nat)
      requires Valid() && argc == 0 && forall i :: 0 <= i < |rows| ==> Searchable(rows[i])
      modifies this`argc, this`operands
      ensures Valid()
      ensures found.None? ==> NoRow(rows, code, at) && argc == 0 && operands == old(operands)
      ensures found.Some? ==> FirstRow(rows, code, at, found.value)
      ensures found.Some? ==> && next == at + RowLength(rows[found.value], code, at)
                              && argc == |RowOperands(rows[found.value], code, at)|
                              && operands == Fill(old(operands), 0, RowOperands(rows[found.value], code, at))
    {
      hide RowAccepts, RowOperands, RowLength, Searchable;
      var i := 0;
      next := at;
      while i < |rows|
        invariant 0 <= i <= |rows| && Valid() && argc == 0 && operands == old(operands)
        invariant forall j :: 0 <= j < i ==> !RowAccepts(rows[j], code, at)
      {
        var ok;
        ok, next := TryRow(rows[i], code, at);
        if ok {
          return Some(i), next;
        }
        i := i + 1;
      }
      return None, at;
    }
  }

  /** The instruction record describes row i of mnemonic mn decoded at a position. */
  ghost predicate Describes(inst: Inst, table: Table, code: Code, at: nat, mn: nat, i: nat)
    requires FirstInTable(table, code, at, mn, i) && SearchableTable(table)
    reads inst
  {
    && inst.Valid() && inst.mn == mn && inst.row == i
    && inst.argc == |RowOperands(table[mn][i], code, at)|
    && inst.operands[..inst.argc] == RowOperands(table[mn][i], code, at)
  }

  /**
   * DecoderBase::decode: the size of the instruction, or 0 when prefixes repeat a group or no row
   * matches.  The record describes the first matching row in table order, as if each candidate
   * had been given a record of its own.
   */
  method Decode(table: Table, code: Code, addr: nat) returns (size: nat, inst: Inst)
    requires SearchableTable(table)
    ensures fresh(inst) && inst.Valid()
    ensures RepeatsGroup(code, addr) ==> size == 0
    ensures !RepeatsGroup(code, addr) && size == 0 ==>
              forall mn :: 1 <= mn < |table| ==> NoRow(table[mn], code, PrefixEnd(code, addr))
    ensures size > 0 ==> !RepeatsGroup(code, addr)
    ensures size > 0 ==>
              var at := PrefixEnd(code, addr);
              && FirstInTable(table, code, at, inst.mn, inst.row)
              && Describes(inst, table, code, at, inst.mn, inst.row)
              && size == inst.size == at - addr + RowLength(table[inst.mn][inst.row], code, at)
              && inst.prefc == at - addr && SlotsByClass(inst.pref)
              && forall p :: addr <= p < at ==> At(code, p) in inst.pref
  {
    hide RowAccepts, RowOperands, RowLength, Searchable, PrefixEnd, RepeatsGroup, PrefixGroup;
    inst := new Inst();
    var prefixes := inst.FillPrefs(code, addr);
    if prefixes.None? {
      return 0, inst;
    }
    var at := addr + prefixes.value;
    var mn := 1;
    while mn < |table|
      invariant 1 <= mn && inst.Valid() && inst.argc == 0
      invariant inst.prefc == prefixes.value && SlotsByClass(inst.pref)
      invariant forall p :: addr <= p < at ==> At(code, p) in inst.pref
      invariant forall m :: 1 <= m < mn && m < |table| ==> NoRow(table[m], code, at)
    {
      var found, next := inst.TryMn(table[mn], code, at);
      if found.Some? {
        inst.mn, inst.row, inst.size := mn, found.value, next - addr;
        PositiveLength(table[mn][found.value], code, at);
        return inst.size, inst;
      }
      mn := mn + 1;
    }
    return 0, inst;
  }
}
