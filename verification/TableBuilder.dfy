/**
 * The opcode table compiler: master rows written in the notation of the Intel manual
 * become raw bytes, operand-dependent elements and an index from operand hashes to rows.
 * IA-32 build: rows for EM64T are skipped.
 */
module TableBuilder {
  import opened Basics
  import opened X86
  import opened Rows
  import opened OperandHash

  // ----- compiling one master row -----

  datatype Platform = AnyPlatform | EM64T | IA32 | Decoder | Decoder32 | Decoder64

  /** An entry of a master row: an opcode byte, the REX.W marker or an operand-dependent element. */
  datatype Elem = Byte(b: byte) | RexW | Part(aux: Aux)

  datatype OpcodeInfo = OpcodeInfo(platf: Platform, opcode: seq<Elem>, opnds: seq<OpndDesc>, roles: seq<Role>)

  /** Number of leading entries that are plain bytes. */
  function RawCount(e: seq<Elem>): (n: nat)
    ensures n <= |e|
    ensures forall i :: 0 <= i < n ==> !e[i].Part?
    ensures n < |e| ==> e[n].Part?
  {
    if e == [] || e[0].Part? then 0 else 1 + RawCount(e[1..])
  }

  function RawByte(e: Elem): byte
    requires !e.Part?
  {
    if e.RexW? then 0x48 else e.b
  }

  function RawBytes(e: seq<Elem>): (s: seq<byte>)
    ensures |s| == RawCount(e)
  {
    seq(RawCount(e), i requires 0 <= i < RawCount(e) => RawByte(e[i]))
  }

  function PartAt(e: seq<Elem>, j: nat): Aux {
    if j < |e| && e[j].Part? then e[j].aux else NoAux
  }

  /** isRegKind on a mask: between the GP bit and the status-register bit. */
  predicate RegKinds(kinds: set<OpndKind>) {
    kinds != {} && (kinds <= {GPReg, SReg, FPReg, XMMReg} || kinds == {OtherReg})
  }

  function WidthOf(size: OpndSize): Option<Width> {
    match size
    case Size8 => Some(W1)
    case Size16 => Some(W2)
    case Size32 => Some(W4)
    case _ => None
  }

  /** The position of the immediate operand, when there is a first or last one. */
  function ImmIndex(info: OpcodeInfo): Option<nat>
    requires |info.opnds| == 3 && |info.roles| <= 3
  {
    var n := |info.roles|;
    if n == 0 then None
    else if info.opnds[0].kinds == {Imm} then Some(0)
    else if info.opnds[n - 1].kinds == {Imm} then Some(n - 1)
    else None
  }

  /** What the compiler asserts of a master row. */
  predicate MasterRow(info: OpcodeInfo) {
    && |info.opnds| == 3
    && |info.roles| <= 3
    && RawCount(info.opcode) <= 4
    && match ImmIndex(info)
       case None => true
       case Some(k) =>
         && WidthOf(info.opnds[k].size).Some?
         && PartAt(info.opcode, RawCount(info.opcode) + 1) in {NoAux, ImmField(WidthOf(info.opnds[k].size).value)}
  }

  /** The first operand-dependent element; rows without one may be given a fake /r or /0. */
  function FirstPart(info: OpcodeInfo): Aux
    requires MasterRow(info)
  {
    var n := |info.roles|;
    var a, b := info.opnds[0].kinds, info.opnds[1].kinds;
    if RawCount(info.opcode) < |info.opcode| then PartAt(info.opcode, RawCount(info.opcode))
    else if n >= 2 then (if (Mem in a && RegKinds(b)) || (Mem in b && RegKinds(a)) then SlashR else NoAux)
    else if n == 1 && Mem in a then SlashNum(0)
    else NoAux
  }

  /** Both elements, after an immediate that the notation leaves out has been supplied. */
  function Parts(info: OpcodeInfo): (Aux, Aux)
    requires MasterRow(info)
  {
    var aux0 := FirstPart(info);
    var aux1 := PartAt(info.opcode, RawCount(info.opcode) + 1);
    match ImmIndex(info)
    case None => (aux0, aux1)
    case Some(k) =>
      var w := WidthOf(info.opnds[k].size).value;
      if !aux1.NoAux? then (aux0, aux1)
      else if aux0.NoAux? then (ImmField(w), aux1)
      else if aux0 != ImmField(w) && aux0 != RelField(w) then (aux0, ImmField(w))
      else (aux0, aux1)
  }

  function FirstExplicit(opnds: seq<OpndDesc>): nat
    requires |opnds| == 3
  {
    if opnds[0].reg.NoReg? then 0 else if opnds[1].reg.NoReg? then 1 else 2
  }

  function CompileRow(info: OpcodeInfo): OpcodeDesc
    requires MasterRow(info)
  {
    RawDesc(RawBytes(info.opcode), Parts(info).0, Parts(info).1, info.opnds, FirstExplicit(info.opnds), info.roles,
            info.platf in {Decoder, Decoder32, Decoder64})
  }

  predicate Skipped(info: OpcodeInfo) {
    info.platf in {EM64T, Decoder64}
  }

  /** The rows of this build, in order. */
  function Kept(infos: seq<OpcodeInfo>): (r: seq<OpcodeInfo>)
    ensures |r| <= |infos|
    ensures forall x :: x in r <==> x in infos && !Skipped(x)
  {
    if infos == [] then []
    else (if Skipped(infos[0]) then [] else [infos[0]]) + Kept(infos[1..])
  }

  /** Rows of another build are skipped before anything is asked of them. */
  predicate Compilable(infos: seq<OpcodeInfo>) {
    forall x :: x in infos ==> Skipped(x) || MasterRow(x)
  }

  function Compile(infos: seq<OpcodeInfo>): (rows: seq<OpcodeDesc>)
    requires Compilable(infos)
    ensures |rows| <= |infos|
  {
    if infos == [] then []
    else
      var front := Compile(infos[..|infos| - 1]);
      var last := infos[|infos| - 1];
      if Skipped(last) then front else front + [CompileRow(last)]
  }

  lemma {:induction false} KeptAppend(a: seq<OpcodeInfo>, b: seq<OpcodeInfo>)
    ensures Kept(a + b) == Kept(a) + Kept(b)
  {
    hide Skipped;
    if a == [] {
      assert a + b == b;
    } else {
      assert (a + b)[1..] == a[1..] + b;
      KeptAppend(a[1..], b);
    }
  }

  lemma {:induction false} KeptAll(a: seq<OpcodeInfo>)
    requires forall x :: x in a ==> !Skipped(x)
    ensures Kept(a) == a
  {
    if a != [] {
      KeptAll(a[1..]);
    }
  }

  /** The compiled rows are the rows of this build, one by one and in order. */
  lemma {:induction false} CompileKept(infos: seq<OpcodeInfo>)
    requires Compilable(infos)
    ensures |Compile(infos)| == |Kept(infos)|
    ensures forall i :: 0 <= i < |Kept(infos)| ==>
              Kept(infos)[i] in infos && MasterRow(Kept(infos)[i]) && Compile(infos)[i] == CompileRow(Kept(infos)[i])
  {
    hide CompileRow, MasterRow;
    if infos != [] {
      var front, last := infos[..|infos| - 1], infos[|infos| - 1];
      assert infos == front + [last];
      KeptAppend(front, [last]);
      assert Kept([last]) == if Skipped(last) then [] else [last];
      CompileKept(front);
    }
  }

  // ----- what compiling a row comes to -----

  /** The raw bytes are the leading bytes of the row, in order, with 0x48 for REX.W. */
  lemma RawExact(e: seq<Elem>, i: nat)
    requires i < |e| && forall j :: 0 <= j <= i ==> !e[j].Part?
    ensures i < |RawBytes(e)| && RawBytes(e)[i] == if e[i] == RexW then 0x48 else e[i].b
  {
  }

  /** Leading bytes that are written out. */
  lemma RawOf(e: seq<Elem>, raw: seq<byte>, rest: seq<Elem>)
    requires e == seq(|raw|, i requires 0 <= i < |raw| => Byte(raw[i])) + rest && (rest == [] || rest[0].Part?)
    ensures RawCount(e) == |raw| && RawBytes(e) == raw
  {
    if raw == [] {
      assert e == rest;
    } else {
      assert e[1..] == seq(|raw[1..]|, i requires 0 <= i < |raw[1..]| => Byte(raw[1..][i])) + rest;
      RawOf(e[1..], raw[1..], rest);
      assert forall i :: 0 <= i < |raw| ==> RawByte(e[i]) == raw[i];
    }
  }

  /** Rows of this build, and which of them are for decoding only. */
  lemma PlatformExact(info: OpcodeInfo)
    ensures Skipped(info) <==> info.platf !in {AnyPlatform, IA32, Decoder, Decoder32}
    ensures MasterRow(info) && !Skipped(info) ==> (CompileRow(info).decoderOnly <==> info.platf !in {AnyPlatform, IA32})
  {
    match info.platf
    case AnyPlatform =>
    case EM64T =>
    case IA32 =>
    case Decoder =>
    case Decoder32 =>
    case Decoder64 =>
  }

  /** The fixed registers a row begins with are skipped when operands are encoded, two at most, and nothing else is. */
  lemma FirstOperandExact(info: OpcodeInfo, k: nat)
    requires MasterRow(info) && k < 3
    ensures CompileRow(info).firstOpnd <= 2
    ensures k < CompileRow(info).firstOpnd ==> info.opnds[k].reg != NoReg
    ensures k == CompileRow(info).firstOpnd && k < 2 ==> info.opnds[k].reg == NoReg
  {
  }

  /**
   * The elements of a compiled row: those written come first and in order; a register and a memory operand
   * without any get /r, and a single memory operand /0; a first or last immediate always has its field.
   */
  lemma ElementsExact(info: OpcodeInfo)
    requires MasterRow(info)
    ensures var row, n, e := CompileRow(info), |info.roles|, info.opcode[RawCount(info.opcode)..];
            var a, b := info.opnds[0].kinds, info.opnds[1].kinds;
            && (e != [] && e[0] != Part(NoAux) ==> e[0] == Part(row.aux0))
            && (|e| > 1 && e[1].Part? && e[1].aux != NoAux ==> row.aux1 == e[1].aux)
            && (e == [] && n >= 2 && ((Mem in a && RegKinds(b)) || (Mem in b && RegKinds(a))) ==> row.aux0 == SlashR)
            && (e == [] && n == 1 && Mem in a ==> row.aux0 == SlashNum(0))
            && (n > 0 && (a == {Imm} || info.opnds[n - 1].kinds == {Imm}) ==>
                  exists w: Width ::
                    && w.ImmSize() == (if a == {Imm} then info.opnds[0].size else info.opnds[n - 1].size)
                    && (row.aux0 == ImmField(w) || row.aux0 == RelField(w) || row.aux1 == ImmField(w)))
            && (e == [] && Mem !in a && Mem !in b && !(n > 0 && (a == {Imm} || info.opnds[n - 1].kinds == {Imm})) ==>
                  row.aux0 == row.aux1 == NoAux)
  {
    var row, n, e := CompileRow(info), |info.roles|, info.opcode[RawCount(info.opcode)..];
    assert row.aux0 == Parts(info).0 && row.aux1 == Parts(info).1;
    assert e == [] ==> PartAt(info.opcode, RawCount(info.opcode) + 1) == NoAux;
    if ImmIndex(info).Some? {
      ImmSupplied(info);
    }
  }

  lemma ImmSupplied(info: OpcodeInfo)
    requires MasterRow(info) && ImmIndex(info).Some?
    ensures var s := info.opnds[ImmIndex(info).value].size;
            WidthOf(s).Some? &&
            var w := WidthOf(s).value;
            && w.ImmSize() == s
            && (Parts(info).0 == ImmField(w) || Parts(info).0 == RelField(w) || Parts(info).1 == ImmField(w))
  {
    hide FirstPart, PartAt, RawCount;
  }

  // ----- the hashes a row is stored under -----

  /** The location a mask denotes when it is a single bit. */
  function MaskKind(kinds: set<OpndKind>): OpndKind {
    if kinds == {GPReg} then GPReg else if kinds == {SReg} then SReg else if kinds == {FPReg} then FPReg
    else if kinds == {XMMReg} then XMMReg else if kinds == {OtherReg} then OtherReg
    else if kinds == {Imm} then Imm else if kinds == {Mem} then Mem else NullKind
  }

  function DescShape(d: OpndDesc): Shape { Shape(MaskKind(d.kinds), d.size) }

  /** getHash's view of the operands. */
  function RowShapes(row: OpcodeDesc): (s: seq<Shape>)
    ensures |s| == |row.roles|
    ensures forall i :: 0 <= i < |s| ==> s[i] == DescShape(row.opnds[i])
  {
    seq(|row.roles|, i requires 0 <= i < |row.roles| => DescShape(row.opnds[i]))
  }

  predicate Masked(d: OpndDesc) {
    Mem in d.kinds && d.kinds != {Mem}
  }

  /** The first register-or-memory operand at or after k. */
  function SplitFrom(row: OpcodeDesc, k: nat): (r: Option<nat>)
    requires k <= |row.roles|
    ensures r.Some? ==> k <= r.value < |row.roles| && Masked(row.opnds[r.value])
    ensures r.Some? ==> forall i :: k <= i < r.value ==> !Masked(row.opnds[i])
    ensures r.None? ==> forall i :: k <= i < |row.roles| ==> !Masked(row.opnds[i])
    decreases |row.roles| - k
  {
    if k == |row.roles| then None
    else if Masked(row.opnds[k]) then Some(k)
    else SplitFrom(row, k + 1)
  }

  function Split(row: OpcodeDesc): Option<nat> { SplitFrom(row, 0) }

  function Half(row: OpcodeDesc, k: nat, kinds: set<OpndKind>): seq<Shape>
    requires k < |row.roles|
  {
    RowShapes(row)[k := Shape(MaskKind(kinds), row.opnds[k].size)]
  }

  function RegHalf(row: OpcodeDesc): seq<Shape>
    requires Split(row).Some?
  {
    var k := Split(row).value;
    Half(row, k, row.opnds[k].kinds - {Mem})
  }

  function MemHalf(row: OpcodeDesc): seq<Shape>
    requires Split(row).Some?
  {
    Half(row, Split(row).value, {Mem})
  }

  /** What storing a row does to one slot of the hash map. */
  datatype Effect = Leaves | Yields | Overwrites

  /**
   * A row without a mask overwrites its slot, and so does the memory half of a masked row;
   * the register half yields to a slot already taken.  Decoder-only rows are not stored.
   */
  function EffectOn(row: OpcodeDesc, h: nat): Effect {
    if row.decoderOnly then Leaves
    else if Split(row).None? then (if h == Hash(RowShapes(row)) then Overwrites else Leaves)
    else if h == Hash(MemHalf(row)) then Overwrites
    else if h == Hash(RegHalf(row)) then Yields
    else Leaves
  }

  function Effects(rows: seq<OpcodeDesc>, h: nat): (e: seq<Effect>)
    ensures |e| == |rows|
    ensures forall i :: 0 <= i < |rows| ==> e[i] == EffectOn(rows[i], h)
  {
    seq(|rows|, i requires 0 <= i < |rows| => EffectOn(rows[i], h))
  }

  /** What a slot holds after a sequence of stores. */
  function Settle(e: seq<Effect>): (slot: byte)
    requires |e| < 0xFF
    ensures slot == NOHASH || slot < |e|
  {
    if e == [] then NOHASH
    else
      var i := |e| - 1;
      var before := Settle(e[..i]);
      if e[i].Overwrites? || (e[i].Yields? && before == NOHASH) then i else before
  }

  /** The slot of hash h after the rows have been stored in order. */
  function Slot(rows: seq<OpcodeDesc>, h: nat): (slot: byte)
    requires |rows| < 0xFF
    ensures slot == NOHASH || slot < |rows|
  {
    Settle(Effects(rows, h))
  }

  predicate InRange(row: OpcodeDesc) {
    row.decoderOnly ||
    if Split(row).None? then Hash(RowShapes(row)) < HASH_MAX
    else Hash(RegHalf(row)) < HASH_MAX && Hash(MemHalf(row)) < HASH_MAX
  }

  /** A mnemonic's rows fit its 25-entry array (the last entry is the end marker) and hash within the map. */
  predicate Buildable(infos: seq<OpcodeInfo>) {
    |infos| < 25 && forall x :: x in infos ==> Skipped(x) || (MasterRow(x) && InRange(CompileRow(x)))
  }

  // ----- buildMnemonicDesc -----

  method ExtractRaw(e: seq<Elem>) returns (raw: seq<byte>)
    ensures raw == RawBytes(e)
  {
    raw := [];
    var j := 0;
    while j < |e| && !e[j].Part?
      invariant 0 <= j <= |e| && |raw| == j
      invariant forall i :: 0 <= i < j ==> !e[i].Part? && raw[i] == RawByte(e[i])
    {
      raw := raw + [RawByte(e[j])];
      j := j + 1;
    }
  }

  method FindSplit(row: OpcodeDesc) returns (k: Option<nat>)
    ensures k == Split(row)
  {
    k := None;
    var i := 0;
    while i < |row.roles|
      invariant 0 <= i <= |row.roles|
      invariant Split(row) == SplitFrom(row, i)
    {
      if Masked(row.opnds[i]) {
        return Some(i);
      }
      i := i + 1;
    }
  }

  method StoreRow(row: OpcodeDesc, oindex: byte, slots: array<byte>)
    requires slots.Length == HASH_MAX && InRange(row) && oindex != NOHASH
    modifies slots
    ensures forall h :: 0 <= h < HASH_MAX ==>
              slots[h] ==
                var e := EffectOn(row, h);
                if e.Overwrites? || (e.Yields? && old(slots[h]) == NOHASH) then oindex else old(slots[h])
  {
    if row.decoderOnly {
      return;
    }
    var k := FindSplit(row);
    if k.None? {
      slots[Hash(RowShapes(row))] := oindex;
    } else {
      var r := Hash(Half(row, k.value, row.opnds[k.value].kinds - {Mem}));
      if slots[r] == NOHASH {
        slots[r] := oindex;
      }
      slots[Hash(Half(row, k.value, {Mem}))] := oindex;
    }
  }

  /** The hash map holds for every hash what storing the rows in order leaves there. */
  ghost predicate Indexed(slots: seq<byte>, rows: seq<OpcodeDesc>) {
    |slots| == HASH_MAX && |rows| < 0xFF && forall h :: 0 <= h < HASH_MAX ==> slots[h] == Slot(rows, h)
  }

  lemma SlotExtend(rows: seq<OpcodeDesc>, row: OpcodeDesc, h: nat)
    requires |rows| + 1 < 0xFF
    ensures Slot(rows + [row], h) ==
            var e := EffectOn(row, h);
            if e.Overwrites? || (e.Yields? && Slot(rows, h) == NOHASH) then |rows| else Slot(rows, h)
  {
    assert Effects(rows + [row], h)[..|rows|] == Effects(rows, h);
  }

  /** One more row of a mnemonic. */
  method AddRow(info: OpcodeInfo, rows: seq<OpcodeDesc>, slots: array<byte>) returns (rows': seq<OpcodeDesc>)
    requires MasterRow(info) && InRange(CompileRow(info))
    requires |rows| + 1 < 0xFF && Indexed(slots[..], rows)
    modifies slots
    ensures rows' == rows + [CompileRow(info)]
    ensures Indexed(slots[..], rows')
  {
    var raw := ExtractRaw(info.opcode);
    var row := CompileRow(info).(opcode := raw);
    ghost var before := slots[..];
    StoreRow(row, |rows|, slots);
    rows' := rows + [row];
    forall h | 0 <= h < HASH_MAX ensures slots[..][h] == Slot(rows', h) {
      SlotExtend(rows, row, h);
      assert before[h] == Slot(rows, h);
    }
  }

  lemma {:induction false} CompileExtend(infos: seq<OpcodeInfo>, i: nat)
    requires i < |infos| && Compilable(infos)
    ensures Compile(infos[..i + 1]) == Compile(infos[..i]) + if Skipped(infos[i]) then [] else [CompileRow(infos[i])]
  {
    assert infos[..i + 1][..i] == infos[..i];
  }

  lemma BuildableRows(infos: seq<OpcodeInfo>)
    requires Buildable(infos)
    ensures Compilable(infos)
  {
  }

  lemma EmptyIndex(slots: seq<byte>)
    requires |slots| == HASH_MAX && forall h :: 0 <= h < HASH_MAX ==> slots[h] == NOHASH
    ensures Indexed(slots, [])
  {
  }

  /** Compiles a mnemonic's rows and fills its part of the hash map, which starts empty. */
  method BuildMnemonicDesc(infos: seq<OpcodeInfo>, slots: array<byte>) returns (rows: seq<OpcodeDesc>)
    requires Buildable(infos)
    requires slots.Length == HASH_MAX && forall h :: 0 <= h < HASH_MAX ==> slots[h] == NOHASH
    modifies slots
    ensures rows == Compile(infos)
    ensures Indexed(slots[..], rows)
  {
    hide Indexed, MasterRow, CompileRow, InRange, Slot;
    BuildableRows(infos);
    EmptyIndex(slots[..]);
    rows := [];
    var i := 0;
    while i < |infos|
      invariant 0 <= i <= |infos|
      invariant rows == Compile(infos[..i])
      invariant Indexed(slots[..], rows)
    {
      CompileExtend(infos, i);
      if !Skipped(infos[i]) {
        rows := AddRow(infos[i], rows, slots);
      }
      i := i + 1;
    }
    assert infos[..|infos|] == infos;
  }

  // ----- what the map holds -----

  ghost predicate LastOverwrite(e: seq<Effect>, i: nat) {
    i < |e| && e[i].Overwrites? && forall j :: i < j < |e| ==> !e[j].Overwrites?
  }

  ghost predicate FirstYield(e: seq<Effect>, i: nat) {
    && i < |e| && e[i].Yields?
    && (forall j :: 0 <= j < i ==> !e[j].Yields?)
    && (forall j :: 0 <= j < |e| ==> !e[j].Overwrites?)
  }

  /** A slot holds the last overwriting row, or the first yielding row when none overwrites, or nothing. */
  lemma {:induction false} SettlePriority(e: seq<Effect>)
    requires |e| < 0xFF
    ensures Settle(e) != NOHASH ==> LastOverwrite(e, Settle(e)) || FirstYield(e, Settle(e))
    ensures Settle(e) == NOHASH <==> forall i :: 0 <= i < |e| ==> e[i].Leaves?
  {
    if e != [] {
      var n := |e| - 1;
      SettlePriority(e[..n]);
      assert forall j :: 0 <= j < n ==> e[..n][j] == e[j];
    }
  }

  /** The compiler's assertion: a row's memory half always falls on a free slot. */
  ghost predicate MemSlotsFree(rows: seq<OpcodeDesc>) {
    forall i, h: nat :: 0 <= i < |rows| && Split(rows[i]).Some? && EffectOn(rows[i], h).Overwrites? ==>
      h != Hash(RegHalf(rows[i])) && forall j :: 0 <= j < i ==> EffectOn(rows[j], h).Leaves?
  }

  ghost predicate Unmasked(row: OpcodeDesc, h: nat) {
    Split(row).None? && EffectOn(row, h).Overwrites?
  }

  /**
   * When the assertion holds, the last row without a mask wins, and otherwise the first
   * masked row: the short register form beats the r/m form whatever the order of the rows.
   */
  lemma ShortFormWins(rows: seq<OpcodeDesc>, h: nat)
    requires |rows| < 0xFF && MemSlotsFree(rows)
    requires Slot(rows, h) != NOHASH
    ensures var s := Slot(rows, h);
            if exists i :: 0 <= i < |rows| && Unmasked(rows[i], h) then
              Unmasked(rows[s], h) && forall j :: s < j < |rows| ==> !Unmasked(rows[j], h)
            else
              !EffectOn(rows[s], h).Leaves? && forall j :: 0 <= j < s ==> EffectOn(rows[j], h).Leaves?
  {
    hide EffectOn, Split, RegHalf, Hash, Settle;
    var e, s := Effects(rows, h), Slot(rows, h);
    SettlePriority(e);
    assert forall j :: 0 <= j < |rows| ==> e[j] == EffectOn(rows[j], h);
    if LastOverwrite(e, s) {
      assert Split(rows[s]).Some? ==> forall j :: 0 <= j < s ==> EffectOn(rows[j], h).Leaves?;
    }
  }

  // ----- agreement of the index with a linear search -----

  /** A row of the IA-32 table: single locations, or one register-or-memory operand, all of hashable shape. */
  predicate HashableDesc(d: OpndDesc) {
    if Masked(d) then
      exists k :: k in {GPReg, XMMReg, FPReg, SReg} && d.kinds == {k, Mem} && RegularShape(Shape(k, d.size))
    else
      MaskKind(d.kinds) != NullKind && RegularShape(DescShape(d))
  }

  predicate Hashable(row: OpcodeDesc) {
    && (forall j :: 0 <= j < |row.roles| ==> HashableDesc(row.opnds[j]))
    && (forall i, j :: 0 <= i < j < |row.roles| ==> !(Masked(row.opnds[i]) && Masked(row.opnds[j])))
  }

  lemma MaskedKinds(d: OpndDesc) returns (k: OpndKind)
    requires Masked(d) && HashableDesc(d)
    ensures d.kinds == {k, Mem} && d.kinds - {Mem} == {k} && MaskKind(d.kinds - {Mem}) == k
    ensures k in {GPReg, XMMReg, FPReg, SReg} && RegularShape(Shape(k, d.size)) && RegularShape(Shape(Mem, d.size))
  {
    k :| k in {GPReg, XMMReg, FPReg, SReg} && d.kinds == {k, Mem} && RegularShape(Shape(k, d.size));
    assert d.kinds - {Mem} == {k};
  }

  /** An unmasked description fits exactly the operands of its shape. */
  lemma FitsShape(d: OpndDesc, op: Operand)
    requires !Masked(d) && HashableDesc(d) && RegularShape(ShapeOf(op))
    ensures StrictFits(d, op) <==> ShapeOf(op) == DescShape(d)
  {
    assert d.kinds == {MaskKind(d.kinds)};
  }

  lemma FitsHalves(d: OpndDesc, op: Operand)
    requires Masked(d) && HashableDesc(d) && RegularShape(ShapeOf(op))
    ensures StrictFits(d, op) <==>
            ShapeOf(op) == Shape(MaskKind(d.kinds - {Mem}), d.size) || ShapeOf(op) == Shape(Mem, d.size)
  {
    var k := MaskedKinds(d);
  }

  lemma RegularHalves(row: OpcodeDesc)
    requires Hashable(row)
    ensures Split(row).None? ==> Regular(RowShapes(row))
    ensures Split(row).Some? ==> Regular(RegHalf(row)) && Regular(MemHalf(row))
  {
    if Split(row).Some? {
      var kind := MaskedKinds(row.opnds[Split(row).value]);
    }
  }

  /** Rows of up to two operands always hash within the map. */
  lemma HashableInRange(row: OpcodeDesc)
    requires Hashable(row) && |row.roles| <= 2
    ensures InRange(row)
  {
    RegularHalves(row);
    if Split(row).None? {
      HashInRange(RowShapes(row));
    } else {
      HashInRange(RegHalf(row));
      HashInRange(MemHalf(row));
    }
  }

  lemma PlainRow(row: OpcodeDesc, ops: seq<Operand>)
    requires Hashable(row) && Split(row).None? && Regular(Shapes(ops))
    ensures Regular(RowShapes(row))
    ensures StrictMatch(row, ops) <==> Shapes(ops) == RowShapes(row)
  {
    forall j | 0 <= j < |ops| && |ops| == |row.roles|
      ensures StrictFits(row.opnds[j], ops[j]) <==> Shapes(ops)[j] == RowShapes(row)[j]
    {
      FitsShape(row.opnds[j], ops[j]);
    }
  }

  lemma MaskedRow(row: OpcodeDesc, ops: seq<Operand>)
    requires Hashable(row) && Split(row).Some? && Regular(Shapes(ops))
    ensures Regular(RegHalf(row)) && Regular(MemHalf(row))
    ensures StrictMatch(row, ops) <==> Shapes(ops) == RegHalf(row) || Shapes(ops) == MemHalf(row)
  {
    var k := Split(row).value;
    RegularHalves(row);
    if |ops| == |row.roles| {
      forall j | 0 <= j < |ops| && j != k
        ensures StrictFits(row.opnds[j], ops[j]) <==> Shapes(ops)[j] == RowShapes(row)[j]
      {
        FitsShape(row.opnds[j], ops[j]);
      }
      FitsHalves(row.opnds[k], ops[k]);
    }
  }

  /** A stored row answers to the hash of an operand list exactly when it strictly matches the list. */
  lemma HashMeansMatch(row: OpcodeDesc, ops: seq<Operand>)
    requires Hashable(row) && !row.decoderOnly && Regular(Shapes(ops))
    ensures !EffectOn(row, Hash(Shapes(ops))).Leaves? <==> StrictMatch(row, ops)
  {
    var s := Shapes(ops);
    if Split(row).None? {
      PlainRow(row, ops);
      if Hash(s) == Hash(RowShapes(row)) { HashInjective(s, RowShapes(row)); }
    } else {
      MaskedRow(row, ops);
      if Hash(s) == Hash(RegHalf(row)) { HashInjective(s, RegHalf(row)); }
      if Hash(s) == Hash(MemHalf(row)) { HashInjective(s, MemHalf(row)); }
    }
  }

  predicate Usable(row: OpcodeDesc, ops: seq<Operand>) {
    !row.decoderOnly && StrictMatch(row, ops)
  }

  /**
   * The index agrees with a linear search: the slot of an operand list is taken exactly
   * when some row for encoding strictly matches, and the row it names is such a row.
   */
  lemma IndexAgrees(rows: seq<OpcodeDesc>, ops: seq<Operand>)
    requires |rows| < 0xFF && Regular(Shapes(ops))
    requires forall i :: 0 <= i < |rows| ==> rows[i].decoderOnly || Hashable(rows[i])
    ensures Slot(rows, Hash(Shapes(ops))) != NOHASH <==> exists i :: 0 <= i < |rows| && Usable(rows[i], ops)
    ensures Slot(rows, Hash(Shapes(ops))) != NOHASH ==> Usable(rows[Slot(rows, Hash(Shapes(ops)))], ops)
  {
    var h := Hash(Shapes(ops));
    forall i | 0 <= i < |rows| ensures Usable(rows[i], ops) <==> !EffectOn(rows[i], h).Leaves? {
      if !rows[i].decoderOnly {
        HashMeansMatch(rows[i], ops);
      }
    }
    var e := Effects(rows, h);
    SettlePriority(e);
    assert forall i :: 0 <= i < |rows| ==> e[i] == EffectOn(rows[i], h);
    if Slot(rows, h) == NOHASH {
      assert forall i :: 0 <= i < |rows| ==> e[i].Leaves?;
    } else {
      assert !e[Slot(rows, h)].Leaves?;
    }
  }

  predicate UsableShort(row: OpcodeDesc, ops: seq<Operand>) {
    Usable(row, ops) && Split(row).None?
  }

  /** A row overwrites the slot of operands that are all registers and immediates only if it has no mask. */
  lemma NoMemoryHalf(row: OpcodeDesc, ops: seq<Operand>)
    requires Hashable(row) && Regular(Shapes(ops)) && forall j :: 0 <= j < |ops| ==> ops[j].Kind() != Mem
    ensures EffectOn(row, Hash(Shapes(ops))).Overwrites? ==> Split(row).None?
  {
    var h := Hash(Shapes(ops));
    if Split(row).Some? {
      hide Hash, Hashable, RowShapes;
      RegularHalves(row);
      assert MemHalf(row)[Split(row).value].kind == Mem;
      assert Shapes(ops) != MemHalf(row);
      if h == Hash(MemHalf(row)) {
        HashInjective(Shapes(ops), MemHalf(row));
      }
    }
  }

  /**
   * Short register forms win: for operands without a memory reference the map names the last matching
   * row that has no r/m operand, wherever it stands, and the first matching row when there is none.
   */
  lemma ShortFormChosen(rows: seq<OpcodeDesc>, ops: seq<Operand>)
    requires |rows| < 0xFF && Regular(Shapes(ops)) && forall j :: 0 <= j < |ops| ==> ops[j].Kind() != Mem
    requires forall i :: 0 <= i < |rows| ==> rows[i].decoderOnly || Hashable(rows[i])
    requires exists i :: 0 <= i < |rows| && Usable(rows[i], ops)
    ensures var s := Slot(rows, Hash(Shapes(ops)));
            && s < |rows| && Usable(rows[s], ops)
            && if exists i :: 0 <= i < |rows| && UsableShort(rows[i], ops) then
                 UsableShort(rows[s], ops) && forall j :: s < j < |rows| ==> !UsableShort(rows[j], ops)
               else
                 forall j :: 0 <= j < s ==> !Usable(rows[j], ops)
  {
    hide StrictMatch, Hash, Shapes, Hashable, Regular;
    var h := Hash(Shapes(ops));
    var e := Effects(rows, h);
    IndexAgrees(rows, ops);
    SettlePriority(e);
    forall i | 0 <= i < |rows|
      ensures Usable(rows[i], ops) <==> !e[i].Leaves?
      ensures UsableShort(rows[i], ops) <==> e[i].Overwrites?
    {
      if !rows[i].decoderOnly {
        HashMeansMatch(rows[i], ops);
        NoMemoryHalf(rows[i], ops);
      }
    }
  }

  /** A row stored over what was there: no r/m operand, or the operand list has a memory operand in its place. */
  predicate Overrides(row: OpcodeDesc, ops: seq<Operand>) {
    Usable(row, ops) && (Split(row).None? || (Split(row).value < |ops| && ops[Split(row).value].Kind() == Mem))
  }

  lemma OverridesMeansOverwrites(row: OpcodeDesc, ops: seq<Operand>)
    requires Hashable(row) && !row.decoderOnly && Regular(Shapes(ops))
    ensures EffectOn(row, Hash(Shapes(ops))).Overwrites? <==> Overrides(row, ops)
  {
    hide Hash, Hashable;
    HashMeansMatch(row, ops);
    if Split(row).Some? {
      MaskedRow(row, ops);
      HalvesApart(row, ops);
    }
  }

  lemma HalvesApart(row: OpcodeDesc, ops: seq<Operand>)
    requires Hashable(row) && Split(row).Some? && Regular(Shapes(ops))
    ensures Hash(Shapes(ops)) == Hash(MemHalf(row)) <==> Shapes(ops) == MemHalf(row)
    ensures Shapes(ops) == MemHalf(row) ==> Split(row).value < |ops| && ops[Split(row).value].Kind() == Mem
    ensures Shapes(ops) == RegHalf(row) ==> Split(row).value < |ops| && ops[Split(row).value].Kind() != Mem
  {
    hide Hash;
    RegularHalves(row);
    if Hash(Shapes(ops)) == Hash(MemHalf(row)) {
      HashInjective(Shapes(ops), MemHalf(row));
    }
    var k := Split(row).value;
    var kind := MaskedKinds(row.opnds[k]);
    assert MemHalf(row)[k].kind == Mem && RegHalf(row)[k].kind == kind;
  }

  /** Which row the map names, for every regular list: the last that overrides, else the first that takes the list. */
  lemma ChosenExact(rows: seq<OpcodeDesc>, ops: seq<Operand>)
    requires |rows| < 0xFF && Regular(Shapes(ops))
    requires forall i :: 0 <= i < |rows| ==> rows[i].decoderOnly || Hashable(rows[i])
    requires exists i :: 0 <= i < |rows| && Usable(rows[i], ops)
    ensures var s := Slot(rows, Hash(Shapes(ops)));
            && s < |rows| && Usable(rows[s], ops)
            && if exists i :: 0 <= i < |rows| && Overrides(rows[i], ops) then
                 Overrides(rows[s], ops) && forall j :: s < j < |rows| ==> !Overrides(rows[j], ops)
               else
                 forall j :: 0 <= j < s ==> !Usable(rows[j], ops)
  {
    hide StrictMatch, Hash, Shapes, Hashable, Regular, Split;
    var h := Hash(Shapes(ops));
    var e := Effects(rows, h);
    IndexAgrees(rows, ops);
    SettlePriority(e);
    forall i | 0 <= i < |rows|
      ensures Usable(rows[i], ops) <==> !e[i].Leaves?
      ensures Overrides(rows[i], ops) <==> e[i].Overwrites?
    {
      if !rows[i].decoderOnly {
        HashMeansMatch(rows[i], ops);
        OverridesMeansOverwrites(rows[i], ops);
      }
    }
  }

  // ----- when memory halves meet free slots -----

  predicate ShapeFits(d: OpndDesc, s: Shape) {
    s.kind in d.kinds && s.size == d.size
  }

  /** No operand list of these shapes is taken by the row. */
  predicate Avoids(row: OpcodeDesc, s: seq<Shape>) {
    row.decoderOnly || |row.roles| != |s| || exists p :: 0 <= p < |s| && !ShapeFits(row.opnds[p], s[p])
  }

  /** Some operand of a regular shape. */
  function Sample(s: Shape): (op: Operand)
    requires RegularShape(s)
    ensures ShapeOf(op) == s
  {
    if s.kind == Imm then ImmOpnd(s.size, 0)
    else if s.kind == Mem then MemOpnd(s.size, NoReg, NoReg, 0, 0)
    else RegOpnd(Reg(s.kind, s.size, 0))
  }

  function Samples(s: seq<Shape>): (ops: seq<Operand>)
    requires Regular(s)
    ensures Shapes(ops) == s
  {
    seq(|s|, i requires 0 <= i < |s| => Sample(s[i]))
  }

  lemma AvoidsMeansLeaves(row: OpcodeDesc, s: seq<Shape>)
    requires (row.decoderOnly || Hashable(row)) && Regular(s)
    ensures EffectOn(row, Hash(s)).Leaves? <==> Avoids(row, s)
  {
    hide Hash, Hashable, Split;
    if !row.decoderOnly {
      var ops := Samples(s);
      assert forall p :: 0 <= p < |s| ==> ShapeOf(ops[p]) == Shapes(ops)[p] == s[p];
      HashMeansMatch(row, ops);
      assert forall p :: 0 <= p < |s| && |row.roles| == |s| ==>
        (StrictFits(row.opnds[p], ops[p]) <==> ShapeFits(row.opnds[p], s[p]));
    }
  }

  lemma HalvesDiffer(row: OpcodeDesc)
    requires Hashable(row) && Split(row).Some?
    ensures Regular(MemHalf(row)) && Hash(MemHalf(row)) != Hash(RegHalf(row))
  {
    RegularHalves(row);
    var k := Split(row).value;
    var kind := MaskedKinds(row.opnds[k]);
    assert MemHalf(row)[k].kind == Mem && RegHalf(row)[k].kind == kind;
    assert MemHalf(row) != RegHalf(row);
    if Hash(MemHalf(row)) == Hash(RegHalf(row)) {
      HashInjective(MemHalf(row), RegHalf(row));
    }
  }

  ghost predicate EarlierAvoid(rows: seq<OpcodeDesc>, i: nat)
    requires i < |rows|
  {
    rows[i].decoderOnly || Split(rows[i]).None? || forall j :: 0 <= j < i ==> Avoids(rows[j], MemHalf(rows[i]))
  }

  /** The compiler's assertion never fails exactly when no row takes the memory form of a later masked row. */
  lemma MemSlotsFreeExact(rows: seq<OpcodeDesc>)
    requires forall i :: 0 <= i < |rows| ==> rows[i].decoderOnly || Hashable(rows[i])
    ensures MemSlotsFree(rows) <==> forall i :: 0 <= i < |rows| ==> EarlierAvoid(rows, i)
  {
    hide Hashable, Hash, Split, Avoids, Regular, RegHalf, MemHalf;
    forall i | 0 <= i < |rows| && Split(rows[i]).Some? && !rows[i].decoderOnly
      ensures forall j :: 0 <= j < i ==>
                (EffectOn(rows[j], Hash(MemHalf(rows[i]))).Leaves? <==> Avoids(rows[j], MemHalf(rows[i])))
      ensures Hash(MemHalf(rows[i])) != Hash(RegHalf(rows[i]))
    {
      HalvesDiffer(rows[i]);
      forall j | 0 <= j < i
        ensures EffectOn(rows[j], Hash(MemHalf(rows[i]))).Leaves? <==> Avoids(rows[j], MemHalf(rows[i]))
      {
        AvoidsMeansLeaves(rows[j], MemHalf(rows[i]));
      }
    }
    if MemSlotsFree(rows) {
      forall i | 0 <= i < |rows| ensures EarlierAvoid(rows, i) {
        if Split(rows[i]).Some? && !rows[i].decoderOnly {
          assert EffectOn(rows[i], Hash(MemHalf(rows[i]))).Overwrites?;
        }
      }
    } else {
      var i, h: nat :| 0 <= i < |rows| && Split(rows[i]).Some? && EffectOn(rows[i], h).Overwrites? &&
        !(h != Hash(RegHalf(rows[i])) && forall j :: 0 <= j < i ==> EffectOn(rows[j], h).Leaves?);
      assert h == Hash(MemHalf(rows[i]));
      assert !EarlierAvoid(rows, i);
    }
  }

  // ----- lookup -----

  /** The first row at or after i that a sequential pass accepts. */
  function Scan(rows: seq<OpcodeDesc>, ops: seq<Operand>, strict: bool, i: nat): (r: Option<nat>)
    requires i <= |rows|
    ensures r.Some? ==> i <= r.value < |rows| && Accepted(rows[r.value], ops, strict)
    ensures r.Some? ==> forall j :: i <= j < r.value ==> !Accepted(rows[j], ops, strict)
    ensures r.None? ==> forall j :: i <= j < |rows| ==> !Accepted(rows[j], ops, strict)
    decreases |rows| - i
  {
    if i == |rows| then None
    else if Accepted(rows[i], ops, strict) then Some(i)
    else Scan(rows, ops, strict, i + 1)
  }

  predicate Accepted(row: OpcodeDesc, ops: seq<Operand>, strict: bool) {
    !row.decoderOnly && if strict then StrictMatch(row, ops) else LooseMatch(row, ops)
  }

  /** The row that is chosen: the hash map's, else the first strict match, else the first loose one. */
  function Select(rows: seq<OpcodeDesc>, slots: seq<byte>, ops: seq<Operand>): (r: Option<nat>)
    requires |slots| == HASH_MAX && Hash(Shapes(ops)) < HASH_MAX
  {
    var slot := slots[Hash(Shapes(ops))];
    if slot != NOHASH then Some(slot)
    else match Scan(rows, ops, true, 0)
      case Some(i) => Some(i)
      case None => Scan(rows, ops, false, 0)
  }

  method SequentialPass(rows: seq<OpcodeDesc>, ops: seq<Operand>, strict: bool) returns (r: Option<nat>)
    ensures r == Scan(rows, ops, strict, 0)
  {
    var idx := 0;
    while idx < |rows|
      invariant 0 <= idx <= |rows|
      invariant Scan(rows, ops, strict, 0) == Scan(rows, ops, strict, idx)
    {
      if Accepted(rows[idx], ops, strict) {
        return Some(idx);
      }
      idx := idx + 1;
    }
    return None;
  }

  /** EncoderBase::lookup; no row at all is the failed assertion. */
  method Lookup(rows: seq<OpcodeDesc>, slots: seq<byte>, opnds: Operands) returns (r: Option<nat>)
    requires opnds.Valid() && |slots| == HASH_MAX && opnds.hash < HASH_MAX
    ensures r == Select(rows, slots, opnds.items)
  {
    var slot := slots[opnds.hash];
    if slot != NOHASH {
      return Some(slot);
    }
    r := SequentialPass(rows, opnds.items, true);
    if r.None? {
      r := SequentialPass(rows, opnds.items, false);
    }
  }

  /**
   * On a built table a regular operand list gets a strictly matching row whenever there is
   * one, always through the hash map; the strict pass never finds what the map missed.
   */
  lemma SelectStrict(rows: seq<OpcodeDesc>, slots: seq<byte>, ops: seq<Operand>)
    requires Indexed(slots, rows) && forall i :: 0 <= i < |rows| ==> rows[i].decoderOnly || Hashable(rows[i])
    requires Regular(Shapes(ops)) && Hash(Shapes(ops)) < HASH_MAX
    ensures slots[Hash(Shapes(ops))] == NOHASH ==> Scan(rows, ops, true, 0).None?
    ensures (exists i :: 0 <= i < |rows| && Usable(rows[i], ops)) ==>
              && slots[Hash(Shapes(ops))] != NOHASH
              && Select(rows, slots, ops).Some?
              && Select(rows, slots, ops).value < |rows|
              && Usable(rows[Select(rows, slots, ops).value], ops)
  {
    IndexAgrees(rows, ops);
  }

  lemma StrictIsLoose(row: OpcodeDesc, ops: seq<Operand>)
    requires StrictMatch(row, ops)
    ensures LooseMatch(row, ops)
  {
  }

  /**
   * Lookup on a built table, for every regular operand list: it finds a row exactly when some row for
   * encoding matches at least loosely, the row found is such a row, and it matches strictly exactly
   * when some row does.
   */
  lemma SelectExact(rows: seq<OpcodeDesc>, slots: seq<byte>, ops: seq<Operand>)
    requires Indexed(slots, rows) && forall i :: 0 <= i < |rows| ==> rows[i].decoderOnly || Hashable(rows[i])
    requires Regular(Shapes(ops)) && Hash(Shapes(ops)) < HASH_MAX
    ensures Select(rows, slots, ops).Some? <==> exists i :: 0 <= i < |rows| && Accepted(rows[i], ops, false)
    ensures Select(rows, slots, ops).Some? ==>
              var i := Select(rows, slots, ops).value;
              && i < |rows| && Accepted(rows[i], ops, false)
              && (StrictMatch(rows[i], ops) <==> exists j :: 0 <= j < |rows| && Usable(rows[j], ops))
  {
    hide StrictMatch, LooseMatch, Hash, Shapes, Hashable, Regular, Slot;
    IndexAgrees(rows, ops);
    SelectStrict(rows, slots, ops);
    forall i | 0 <= i < |rows| && Usable(rows[i], ops) ensures Accepted(rows[i], ops, false) {
      StrictIsLoose(rows[i], ops);
    }
  }

  /** Whether a row matches depends on the operands only through their locations and sizes. */
  lemma MatchByShape(row: OpcodeDesc, ops: seq<Operand>, ops': seq<Operand>)
    requires Shapes(ops) == Shapes(ops')
    ensures StrictMatch(row, ops) == StrictMatch(row, ops') && LooseMatch(row, ops) == LooseMatch(row, ops')
  {
    assert |ops| == |Shapes(ops)| == |Shapes(ops')| == |ops'|;
    assert forall i :: 0 <= i < |ops| ==> ShapeOf(ops[i]) == Shapes(ops)[i] == Shapes(ops')[i] == ShapeOf(ops'[i]);
  }

  lemma {:induction false} ScanByShape(rows: seq<OpcodeDesc>, ops: seq<Operand>, ops': seq<Operand>,
                                       strict: bool, i: nat)
    requires i <= |rows| && Shapes(ops) == Shapes(ops')
    ensures Scan(rows, ops, strict, i) == Scan(rows, ops', strict, i)
    decreases |rows| - i
  {
    hide Shapes, StrictMatch, LooseMatch;
    if i < |rows| {
      MatchByShape(rows[i], ops, ops');
      ScanByShape(rows, ops, ops', strict, i + 1);
    }
  }

  /** So does the row that is chosen. */
  lemma SelectByShape(rows: seq<OpcodeDesc>, slots: seq<byte>, ops: seq<Operand>, ops': seq<Operand>)
    requires |slots| == HASH_MAX && Hash(Shapes(ops)) < HASH_MAX && Shapes(ops) == Shapes(ops')
    ensures Select(rows, slots, ops) == Select(rows, slots, ops')
  {
    hide Scan;
    ScanByShape(rows, ops, ops', true, 0);
    ScanByShape(rows, ops, ops', false, 0);
  }

  // ----- buildTable -----

  /** The compiled rows and the hash map of every mnemonic. */
  datatype Tables = Tables(opcodes: Table, maps: seq<seq<byte>>)

  ghost predicate Built(t: Tables) {
    |t.maps| == |t.opcodes| && forall mn :: 0 <= mn < |t.opcodes| ==> Indexed(t.maps[mn], t.opcodes[mn])
  }

  /** Builds the tables of a master table that lists its mnemonics in order. */
  method BuildTable(master: seq<seq<OpcodeInfo>>) returns (t: Tables)
    requires forall mn :: 0 <= mn < |master| ==> Buildable(master[mn])
    ensures Built(t) && |t.opcodes| == |master|
    ensures forall mn :: 0 <= mn < |master| ==> Compilable(master[mn]) && t.opcodes[mn] == Compile(master[mn])
  {
    hide Indexed, Compile, MasterRow, CompileRow, InRange, Slot;
    t := Tables([], []);
    var i := 0;
    while i < |master|
      invariant 0 <= i <= |master|
      invariant Built(t) && |t.opcodes| == i
      invariant forall mn :: 0 <= mn < i ==> Compilable(master[mn]) && t.opcodes[mn] == Compile(master[mn])
    {
      BuildableRows(master[i]);
      var slots := new byte[HASH_MAX](_ => NOHASH);
      var rows := BuildMnemonicDesc(master[i], slots);
      t := Tables(t.opcodes + [rows], t.maps + [slots[..]]);
      i := i + 1;
    }
  }
}
