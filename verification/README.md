# Verified models of the x86 encoder and of the camera state machines

This project models two parts of the repository in Dafny and proves what they are meant to guarantee.

**The x86 machine-code encoder, decoder and opcode-table compiler** (`apache-harmony/`), in the IA-32 build.
A master table is compiled into raw opcode bytes, operand-dependent elements and a hash index (`TableBuilder`).
The encoder picks a row by operand hash and writes opcode, ModR/M, SIB, displacement and immediate bytes into a
buffer, bit field by bit field (`Encoder`).  The decoder scans prefixes and then the rows in table order, with one
instruction record shared by all candidates (`Decoder`).  The wrapper patches live code by decoding, replacing the
immediate and encoding again (`Patch`).  The main results:

- decoding undoes encoding, in any table and any surrounding code: mnemonic, row and length come back for every operand
  list whose chosen row is legible and not hidden by an earlier row; the operands that the row encodes come back in the
  row's sizes, and each is the same exactly when its size is the row's, its immediate fits, its index is not ESP and its
  scale is the one the decoder reports; the instruction is the one asked for exactly when besides the other operands
  are the registers that the row fixes (`RoundTrip`);
- the condition on rows is exact as well: a row is always found exactly when no earlier row can be confused with it,
  and nothing is asked of the other rows of the mnemonic;
- lookup is complete on regular operands: it finds a row exactly when some row matches, strictly whenever one can;
- patching rewrites the recorded immediate field and nothing else, and decodes to the new immediate exactly when it
  fits (`Patch`);
- the tables built from an excerpt of the master table (arithmetic, Jcc, JMP, LEA, MOV, shifts) satisfy the hypotheses
  (`Excerpt`); encoding through them agrees, for every operand list, with a reference assembler that knows the machine's
  opcodes, /digits and condition codes but no tables (`MachineCode`); for each of their instructions it is shown what it
  decodes to, with the inputs for which the encoder's own promises fail (`Instances`, `Outcomes`);
- rows that begin or end with fixed registers, add an FPU register to the opcode or leave elements to the compiler are
  covered by general laws, and by a second excerpt with CMPXCHG, FUCOMI, IDIV, SETZ and SHLD (`FixedRows`).

The byte formats are those of sections 2.1.1, 2.1.3 and 2.1.5 of the Intel 64 and IA-32 Architectures Software
Developer's Manual, Volume 2A.

**Camera HAL state machines** (`libcamera2/`): the pre-flash stage machine with its blocking handshake
(`FlashSequence`), the auto-exposure delay line on a ring buffer (`AeHistory`), the matching of JPEG requests and
pictures (`JpegMatching`), the observer thread's attach, detach and stop protocol (`ObserverProtocol`), and the
in-place NV12 flips (`Nv12Flip`).  Handlers are methods of classes, each proved to refine a step function; the
properties are proved of that function over all runs.

## How the model reads the code

- Bytes are integers from 0 to 255 and bit fields are taken apart with `/` and `%`; stores truncate and loads
  sign-extend explicitly.  Code that is read beyond the modelled bytes reads as zero.
- Assertions of the source are treated as compiled out.  Where one can fail on a modelled path its exact condition is
  stated (`Patch.ReencodeAsserts`, `TableBuilder.MemSlotsFreeExact`, `Instances.SelfCheckFails`).
- Where the code and its comments differ, the code is followed: the location codes of the hash are those of the table
  at enc_base.cpp:61-98 and not those listed at enc_tabl.cpp:167-179, so that the worst case noted at enc_tabl.cpp:182
  as 1077 is 1065 (`OperandHash.WorstCase`); operand roles are read from the most
  significant pair of bits down, as enc_base.h:210-214 does, although the comment at enc_base.h:192-200 says the
  opposite.
- Message queues are first in, first out, and a synchronous sender waits for its reply.  A reply that the flash stage
  machine sends while it handles an enter request goes to the sender of that request, any other to the one that waits.
- What sensors, 3A libraries and clients answer are parameters of the events.

## Model

| member | source | states |
|---|---|---|
| X86.ReadBack | apache-harmony/dec_base.cpp:274-300 | a field stored truncated and loaded sign-extended gives the value back exactly when it lies in the signed range of the field |
| X86.StoresValue | apache-harmony/enc_base.cpp:197-261 | the bytes stored, read as a number with the least significant byte first, are the value modulo the width of the field |
| ModRM.MemRoundTrip | apache-harmony/enc_base.cpp:459-622 | reading the ModR/M, SIB and displacement bytes written for any base, index, scale and 32-bit displacement consumes exactly those bytes and returns base and displacement; the whole operand is returned, up to scale 0 becoming 1 next to a SIB byte, exactly when the index is not ESP |
| ModRM.MemShape | apache-harmony/enc_base.cpp:459-622 | which of SIB byte, disp8 and disp32 an operand gets: a SIB byte exactly for an index or an ESP base, no displacement exactly for zero on a base other than EBP, 8 bits exactly from -127 to 127 with a base |
| ModRM.ReadsMachineAddress | apache-harmony/dec_base.cpp:474-537 | for all bytes and register values, the operand read denotes the address that the tables of the manual give for those bytes |
| ModRM.RmRoundTrip | apache-harmony/dec_base.cpp:452-539 | the same for the r/m position at large, registers included, with kind and size always kept; the operand is returned unchanged exactly when the index is not ESP and the scale is 0 without a SIB byte, 1 for a SIB byte without an index, and not 0 with one |
| ModRM.AddressPreserved | apache-harmony/dec_base.cpp:474-537 | the decoded operand denotes the same effective address in every register state exactly when the index is not ESP |
| ModRM.BitsDetermined | apache-harmony/enc_base.cpp:546-622 | the bytes of a memory operand are independent of the previous buffer contents exactly when the SS field is assigned, that is for scales 0, 1, 2, 4, 8 or without an index |
| ModRM.RereadSameBytes | apache-harmony/enc_base.cpp:459-622 | a memory operand that was read encodes to the bytes it was read from exactly when its index is not ESP, or base and index are both ESP and the index is unscaled |
| OperandHash.HashInjective | apache-harmony/enc_base.h:494-507 | equal hashes of up to three regular operands mean equal counts, locations and sizes |
| OperandHash.HashInRange | apache-harmony/enc_tabl.cpp:272-307 | the hash of regular operands indexes the map exactly when there are fewer than three or the first is a GP register or memory |
| OperandHash.WorstCase | apache-harmony/enc_base.cpp:47-98 | hashes of concrete operand lists, by the location and size codes of the table |
| OperandHash.WideRegisterCollides | apache-harmony/enc_base.cpp:47-98 | a 64-bit GP register hashes to nothing at the front of a list, so regularity cannot be dropped |
| OperandHash.Operands.Add | apache-harmony/enc_base.h:560-566 | the running hash is always the hash of the operands added so far |
| OperandHash.Operands.Clear | apache-harmony/enc_base.h:572-575 | a cleared list is empty and its hash is that of the empty list |
| TableBuilder.ExtractRaw | apache-harmony/enc_tabl.cpp:1829-1844 | the loop collects exactly the leading plain bytes of a master row, REX.W as 0x48 |
| TableBuilder.FindSplit | apache-harmony/enc_tabl.cpp:1931-1938 | the loop finds the first register-or-memory operand, or none |
| TableBuilder.StoreRow | apache-harmony/enc_tabl.cpp:1919-1976 | a row without a mask and the memory half of a masked row overwrite their slots, the register half fills only a free slot, every other slot keeps its value |
| TableBuilder.AddRow | apache-harmony/enc_tabl.cpp:1803-1976 | one more row extends the compiled rows and keeps the map in step with them for every hash |
| TableBuilder.BuildMnemonicDesc | apache-harmony/enc_tabl.cpp:1789-1978 | rows of another build are skipped before anything is asked of them; the rows are the compiled master rows of this build in order (RawExact, PlatformExact, FirstOperandExact and ElementsExact say what compiling makes of each), and every slot of the map holds what storing them in order leaves there |
| TableBuilder.BuildTable | apache-harmony/enc_tabl.cpp:1764-1787 | the same for every mnemonic of a master table |
| TableBuilder.CompileKept | apache-harmony/enc_tabl.cpp:1803-1820 | the compiled rows are the rows of this build, one by one and in order, and the others leave no trace |
| TableBuilder.RawExact | apache-harmony/enc_tabl.cpp:1829-1844 | each leading byte of a master row is the raw byte at its place, REX.W being 48 |
| TableBuilder.PlatformExact | apache-harmony/enc_tabl.cpp:1803-1820 | of the six kinds of rows, those for EM64T and the 64-bit decoder are skipped and those for the decoder are for decoding only |
| TableBuilder.FirstOperandExact | apache-harmony/enc_tabl.cpp:1911-1917 | all operands before the first encoded one are fixed registers, that one is not unless two were skipped, and no more than two are skipped |
| TableBuilder.ElementsExact | apache-harmony/enc_tabl.cpp:1844-1909 | elements written out keep their order; without any, a register and a memory operand get /r and a single memory operand /0; a first or last immediate always gets a field of its size |
| TableBuilder.SettlePriority | apache-harmony/enc_tabl.cpp:1940-1976 | a slot holds the last overwriting row, or the first yielding row when none overwrites, and is empty exactly when every row leaves it alone |
| TableBuilder.ShortFormWins | apache-harmony/enc_tabl.cpp:1940-1974 | for every hash, when memory halves meet free slots as asserted, the last unmasked row wins and otherwise the first masked one |
| TableBuilder.MemSlotsFreeExact | apache-harmony/enc_tabl.cpp:1966-1974 | the assertion that memory halves meet free slots never fails exactly when no row takes the memory form of a later row with an r/m operand |
| TableBuilder.ShortFormChosen | apache-harmony/enc_tabl.cpp:1948-1966 | for operands without memory, and with no assumption on row order, the map names the last matching row without an r/m operand, and the first matching row if there is none |
| TableBuilder.ChosenExact | apache-harmony/enc_tabl.cpp:1940-1976 | for every regular list that some row takes as it is: the last such row without an r/m operand or with memory in its place, and the first such row if there is none |
| TableBuilder.HashMeansMatch | apache-harmony/enc_base.cpp:708-738 | a stored row answers to the hash of an operand list exactly when it strictly matches the list |
| TableBuilder.IndexAgrees | apache-harmony/enc_base.cpp:773-833 | the slot of a regular operand list is taken exactly when some row for encoding strictly matches, and then names such a row |
| TableBuilder.SelectStrict | apache-harmony/enc_base.cpp:784-803 | the strict sequential pass never finds what the map missed, and a list with a strict match always gets a strictly matching row |
| TableBuilder.SelectExact | apache-harmony/enc_base.cpp:773-833 | lookup finds a row exactly when some row for encoding matches at least loosely, the row found does, and it matches strictly exactly when some row does |
| TableBuilder.SelectByShape | apache-harmony/enc_base.cpp:708-738 | the choice depends on the operands only through their locations and sizes |
| TableBuilder.SequentialPass | apache-harmony/enc_base.cpp:785-816 | the loop returns the first row for encoding that try_match accepts, or none |
| TableBuilder.Lookup | apache-harmony/enc_base.cpp:773-833 | the row of the hash map, else the first strict match, else the first loose match, else the failed assertion |
| Encoder.LengthBound | apache-harmony/enc_defs.h:79 | every instruction is at most 14 bytes long, below MAX_NATIVE_INST_SIZE |
| Encoder.BytesDetermined | apache-harmony/enc_base.cpp:356-380 | every bit of an instruction is determined by row and operands exactly when its r/m operand does not leave the SS field unassigned |
| Encoder.CodeBuffer.StoreField | apache-harmony/enc_base.cpp:197-261 | a displacement or immediate is stored little-endian at the position recorded for its operand, and nothing else changes |
| Encoder.CodeBuffer.EncodeDisp | apache-harmony/enc_base.cpp:505-526 | the mod field and the displacement: none only for zero without EBP, 8 bits for -127 to 127 only, else 32 bits |
| Encoder.CodeBuffer.EncodeScale | apache-harmony/enc_base.cpp:604-608 | the SS field for 0, 1, 2, 4, 8, and no change for any other scale |
| Encoder.CodeBuffer.EncodeModRM | apache-harmony/enc_base.cpp:459-622 | exactly the bytes of the memory operand are written, the reg field and an unassigned SS field keep their bits, and the displacement's position is recorded |
| Encoder.CodeBuffer.EncodeRm | apache-harmony/enc_base.cpp:116-181 | an r/m operand, register or memory, together with its reg field |
| Encoder.CodeBuffer.EncodeAux | apache-harmony/enc_base.cpp:102-291 | each operand-dependent element writes exactly its bytes, consumes its operands and records their positions (AuxRoundTrip, AddedReadBack and FieldsLocated say what these bytes and positions mean) |
| Encoder.CodeBuffer.CopyOpcode | apache-harmony/enc_base.cpp:356-370 | the raw opcode bytes are copied and nothing else changes |
| Encoder.CodeBuffer.EncodeRow | apache-harmony/enc_base.cpp:356-379 | an instruction of a given row: exactly the bytes between the two positions change |
| Encoder.CodeBuffer.Encode | apache-harmony/enc_base.cpp:293-457 | the chosen row's bytes, exactly between the given and the returned position, with operand locations |
| Decoder.PrefixEnd | apache-harmony/dec_base.cpp:61-135 | the prefix scan ends on every byte stream, at the first byte that is no prefix |
| Decoder.PrefixRun | apache-harmony/dec_base.cpp:61-135 | a byte belongs to the run exactly when it and all before it are F0, F2 or F3 not before 0F, a segment override or 67 |
| Decoder.PrefixBytes | apache-harmony/dec_base.cpp:61-135 | both directions on raw bytes: the scan moves on exactly at F0, 2E, 36, 3E, 26, 64, 65, 67, and at F2 or F3 unless 0F follows |
| Decoder.RepeatsExact | apache-harmony/dec_base.cpp:109-133 | prefixes are refused exactly when two of one class (lock and repeat, segment, address size) stand in the run |
| Decoder.PairRefused | apache-harmony/dec_base.cpp:109-133 | which pairs of prefixes are refused, by their bytes |
| Decoder.Inst.FillPrefs | apache-harmony/dec_base.cpp:61-135 | the scan terminates, fails exactly when the run of prefixes repeats a group, and otherwise counts it (three at most) and records each prefix in the slot of its class |
| Decoder.Inst.DecodeModRM | apache-harmony/dec_base.cpp:452-539 | reads the r/m operand and its length, for all byte values |
| Decoder.Inst.DecodeAux | apache-harmony/dec_base.cpp:190-367 | an element is refused exactly on a wrong /digit or a byte outside the +r range, and a refused element changes nothing |
| Decoder.AcceptsExactly | apache-harmony/dec_base.cpp:190-367 | /digit, +r and +i accept exactly the bytes that some register, or some mod and r/m field, can make of them, and every other element accepts all |
| Decoder.Inst.TryRow | apache-harmony/dec_base.cpp:369-450 | a candidate is accepted exactly when its row matches; a rejected one leaves count, operands and position as they were |
| Decoder.Inst.TryMn | apache-harmony/dec_base.cpp:369-450 | the first matching row of a mnemonic, or none and no change |
| Decoder.Decode | apache-harmony/dec_base.cpp:139-180 | decoding refines "first matching row in table order", whatever the rejected candidates did with the shared record; 0 exactly on repeated prefix groups or when no row matches |
| RoundTrip.AuxRoundTrip | apache-harmony/dec_base.cpp:190-367 | each element decodes what it encoded: accepted, same length, operands of the same location and size, each unchanged exactly when sound and with its scale kept |
| RoundTrip.AddedReadBack | apache-harmony/enc_base.cpp:183-196 | the register added to an opcode byte, general or of the FPU stack, is the difference between that byte and the base |
| RoundTrip.FieldsLocated | apache-harmony/enc_base.cpp:835-838 | after an instruction has been written, the recorded location of each operand with a displacement or an immediate is where that field lies with that value, inside the instruction; other locations stay |
| RoundTrip.LengthRoundTrip | apache-harmony/enc_base.cpp:385-386 | every instruction of a legible row, whatever its operands and with implicit ones or not, matches the row in exactly its length and is not taken for a prefix |
| RoundTrip.RowRoundTrip | apache-harmony/enc_base.cpp:381-446 | operands that match the row strictly: those the row encodes come back with their location and size, each unchanged exactly when sound and with its scale kept; fixed operands may follow them |
| RoundTrip.LooseRoundTrip | apache-harmony/enc_base.cpp:708-738 | the same for operands that match only loosely: those the row encodes come back in the row's sizes, unchanged exactly when the size is the row's and they survive |
| RoundTrip.FrontRoundTrip | apache-harmony/enc_tabl.cpp:1911-1917 | rows that begin with fixed registers: the operands read back are those from first_opnd on, in the sizes of the first descriptions, each unchanged exactly when it survives |
| RoundTrip.CompletedExact | apache-harmony/enc_base.cpp:708-738 | decoded operands and the registers that the row fixes are the operands asked for exactly when the encoded ones survive and the others are those registers |
| RoundTrip.FixedLeaveNoTrace | apache-harmony/enc_base.cpp:102-291 | operands that a row does not encode leave no trace in the bytes |
| RoundTrip.ResizedBytes | apache-harmony/enc_base.cpp:102-291 | the bytes of an instruction do not depend on the sizes of its operands |
| RoundTrip.NoPrefix | apache-harmony/dec_base.cpp:61-135 | no instruction of a row that starts clean begins with a prefix |
| RoundTrip.AcceptsByPattern | apache-harmony/dec_base.cpp:415-447 | a row matches exactly when each of the first five bytes meets the row's demand |
| RoundTrip.DisjointExact | apache-harmony/dec_base.cpp:415-447 | the decidable disjointness of two rows holds exactly when no code at all matches both |
| RoundTrip.FoundFirst | apache-harmony/dec_base.cpp:161-180 | a row no earlier row can be confused with is the decoder's only first match whenever it matches |
| RoundTrip.DistinguishedExact | apache-harmony/dec_base.cpp:161-180 | a row is found first in every code it matches exactly when it is disjoint from every earlier row |
| RoundTrip.ChoiceDecodable | apache-harmony/enc_base.cpp:773-833 | on a well-formed table, for every regular list of proper operands, lookup finds a row exactly when one matches, and if that row describes what it encodes and is distinguished the operands are decodable |
| RoundTrip.EncodeDecode | apache-harmony/enc_base.cpp:293-457 | whole-instruction round trip through the whole table: same mnemonic, row and length for every list whose chosen row is legible and distinguished, implicit operands or not; the encoded operands in the row's sizes, each unchanged exactly when it survives, where the row describes them; for every surrounding code and previous buffer contents |
| RoundTrip.EncodeChecked | apache-harmony/enc_base.cpp:381-446 | the encoder's disabled self-check: mnemonic and length always agree, the operands can all come back only if the decoder reports as many as there are, and they do exactly when the row encodes every operand and each has the row's size, is sound and has the scale the decoder reports |
| RoundTrip.DecodeWritten | apache-harmony/dec_base.cpp:139-180 | the same for decoding an instruction the encoder left anywhere in a buffer; the size is the one the wrapper reports |
| RoundTrip.DecodePrefixed | apache-harmony/dec_base.cpp:139-180 | the same behind one prefix byte of any class: the same instruction, one byte longer, with the prefix recorded |
| Patch.HeadThenImm | apache-harmony/enc_base.cpp:197-261 | an instruction whose last operand is an immediate is a head followed by that field |
| Patch.PatchedField | apache-harmony/enc_wrapper.cpp:386-398 | re-encoding with an equal head and a new immediate is a store into the immediate field |
| Patch.FieldLocation | apache-harmony/enc_base.cpp:835-838 | the recorded operand location is the position of that field |
| Patch.Reencoded | apache-harmony/enc_wrapper.cpp:186-198 | what both patches have in common: same row, same length, only the recorded field changes, the code holds the instruction with the new operand list, and it decodes accordingly |
| Patch.UpdateImm | apache-harmony/enc_wrapper.cpp:186-198 | patching an immediate-only instruction keeps its length, changes only the recorded field, and leaves an instruction of the same row that decodes to the new immediate exactly when it fits the field |
| Patch.UpdateImmRm | apache-harmony/enc_wrapper.cpp:386-398 | the same next to a register or memory operand whose index is not ESP, which is decoded as before |
| Patch.StrictSettled | apache-harmony/enc_base.cpp:773-833 | operands that match their row strictly get the same row when re-encoded as decoded |
| Patch.OnlyRowSettled | apache-harmony/enc_base.cpp:773-833 | so do loosely matched operands when no other row takes them in the row's sizes |
| Patch.UnsettledMoves | apache-harmony/enc_base.cpp:773-833 | operands that get another row when re-encoded leave code that is no instruction of the old row, for all rows with a round trip of mnemonic and length |
| Patch.ReencodeAsserts | apache-harmony/enc_base.cpp:538-598 | re-encoding a decoded operand meets the encoder's assertions again exactly when it was not a bare ESP base |
| Excerpt.AllSuit | apache-harmony/enc_tabl.cpp:1468-1495 | each row of this build compiles to a searchable row, which is hashable, describes what it encodes and, unless it shifts by CL, encodes every operand, or is for decoding only |
| Excerpt.AllApart | apache-harmony/enc_tabl.cpp:1148-1182 | any two different rows differ in prefix, escape, opcode byte or /digit, except for the two of LEA |
| Excerpt.ExcerptCovered | apache-harmony/enc_tabl.cpp:347-373 | the tables are well formed, and every row for encoding satisfies the hypotheses of the round trip but for LEA r32, m64 |
| Excerpt.KeptRows | apache-harmony/enc_tabl.cpp:1063-1102 | of the whole lists, rows for EM64T included, the compiler keeps exactly the rows of this build |
| Excerpt.WideMovNotCompilable | apache-harmony/enc_tabl.cpp:1811-1818 | the skipped row MOV r64, imm64 does not meet what the compiler asserts of rows it keeps |
| Excerpt.LeaShadowed | apache-harmony/enc_tabl.cpp:1106-1128 | LEA r32, m64 matches exactly the codes of LEA r32, m32, which stands before it |
| Excerpt.BuildExcerpt | apache-harmony/enc_tabl.cpp:1764-1787 | the tables built are those of the excerpt, and well formed |
| MachineCode.Assembles | apache-harmony/enc_base.cpp:293-457 | for every instruction and operand list, some row takes the list as it is exactly when the machine has a form for it, and the bytes written are those of the reference assembler |
| MachineCode.EveryMnemonic | apache-harmony/enc_tabl.cpp:335-373 | every mnemonic of the excerpt is one of the numbered instructions of the reference |
| MachineCode.BestChosen | apache-harmony/enc_tabl.cpp:1940-1976 | which row lookup chooses, by the forms of the rows alone |
| MachineCode.Disassembles | apache-harmony/dec_base.cpp:139-180 | code that holds the reference machine code of an instruction is decoded as its mnemonic, in its length, whatever lies around it |
| Instances.MovShortForm | apache-harmony/enc_tabl.cpp:1148-1182 | for every register and value MOV r32, imm32 is accepted, selects B8+r although C7 /0 matches too, and is encoded as the opcode byte followed by the immediate |
| Instances.ExcerptChoice | apache-harmony/enc_base.cpp:773-833 | for every mnemonic and regular list of proper operands, lookup finds a row exactly when one matches, and the operands are decodable unless the row is the second of LEA |
| Instances.MovEaxAh | apache-harmony/enc_base.cpp:803-816 | MOV EAX, AH matches only loosely, is encoded as 89 E0 and decodes to MOV EAX, ESP |
| Instances.ShiftByImm | apache-harmony/enc_tabl.cpp:1468-1500 | every shift or rotation of a register or memory operand by an immediate has the round trip of all operands and can be patched, although the mnemonic also shifts by CL |
| Instances.ShiftByRegister | apache-harmony/enc_tabl.cpp:1474-1484 | every shift by an 8-bit register gets the row for CL and its bytes, and is the instruction asked for exactly when the register is CL and the other operand survives |
| Outcomes.ShlEaxBl | apache-harmony/enc_base.cpp:708-738 | SHL EAX, BL is encoded as D3 E0, which is SHL EAX, CL |
| Instances.LeaDecodable | apache-harmony/enc_tabl.cpp:1106-1128 | LEA r32, m32 has the round trip |
| Outcomes.LeaWideMemory | apache-harmony/enc_tabl.cpp:1106-1128 | LEA r32, m64 decodes as LEA r32, m32 with the same length and the memory operand in the smaller size |
| Outcomes.ExcerptDecode | apache-harmony/dec_base.cpp:139-180 | what every instruction of the excerpt decodes to: mnemonic, length, row and encoded operands, and when it is the instruction asked for |
| Outcomes.ExcerptSettled | apache-harmony/enc_wrapper.cpp:386-398 | every regular list that ends in an immediate and is decodable can be patched, loosely matched ones included |
| Instances.JmpMemory | apache-harmony/enc_base.cpp:415-425 | a jump through memory decodes to the same operand exactly when its index is not ESP and its scale is the one the decoder reports |
| Instances.SelfCheckFails | apache-harmony/enc_base.cpp:381-446 | the self-check fails on every jump through [ESP + disp] and through an index with scale 0, operands the encoder accepts |
| Instances.JmpEsp4 | apache-harmony/enc_base.cpp:415-425 | JMP [ESP + 4] decodes with scale 1 |
| Instances.ExcerptSlotsFree | apache-harmony/enc_tabl.cpp:1966-1974 | the compiler's assertion on memory halves never fails on the rows of the excerpt |
| FixedRows.BuildFixed | apache-harmony/enc_tabl.cpp:1789-1978 | the rows of CMPXCHG, FUCOMI, IDIV, SETZ and SHLD compile to the rows written out: two fixed registers skipped for IDIV, /0 supplied for SETZ, /r and the immediate field for SHLD |
| FixedRows.IdivRoundTrip | apache-harmony/enc_tabl.cpp:996-1006 | IDIV of any 32-bit register or memory operand, with EAX and EDX before it, is F7 followed by the divisor and /7, and the divisor is read back, unchanged exactly when it survives |
| FixedRows.IdivEcx | apache-harmony/enc_wrapper.cpp:211-219 | IDIV ECX is F7 F9 |
| FixedRows.FucomiStack | apache-harmony/enc_wrapper.cpp:456-470 | FUCOMI ST(r) is DB E8+r for both sizes and every r, and is decoded by the first row in two bytes |
| FixedRows.LockCmpxchg | apache-harmony/dec_base.cpp:61-180 | LOCK CMPXCHG [EBX], ECX is decoded in four bytes with its prefix recorded |
| FixedRows.SuppliedElements | apache-harmony/enc_tabl.cpp:1844-1909 | SETZ AL is 0F 94 C0, SHLD EAX, ECX, CL is 0F A5 C8 and SHLD EAX, ECX, 5 is 0F A4 C8 05 |
| Nops.FewestIsLeast | apache-harmony/enc_base.h:76-89 | no split of n bytes into NOPs of one to nine bytes has fewer than ceil(n/9) pieces |
| Nops.NopIsOne | apache-harmony/enc_base.cpp:624-638 | each entry of the table is one instruction of its length: 90 or 0F 1F /0 with its r/m operand, possibly behind 66 |
| Nops.FillNops | apache-harmony/enc_base.cpp:624-653 | exactly n bytes are written, and read from the start they are ceil(n/9) NOP instructions one after another that end where the filling ends |
| FlashSequence.FlashMachine.HandleMessageFlashStage | libcamera2/AAAThread.cpp:560-600 | enter and exit requests and their replies |
| FlashSequence.FlashMachine.HandleFlashSequence | libcamera2/AAAThread.cpp:608-739 | one frame of the stage machine and its reply; the result says whether the sequence runs on |
| FlashSequence.HandshakeHolds | libcamera2/AAAThread.cpp:560-600 | over every run each blocking request, rejected ones included, has exactly one reply by the time the sequence is over, and a running sequence owes at most one; a reply says AlreadyExists only for a request made while a sequence ran, NoError only when its stage was reached or the sequence exited, UnknownError only when a frame abandoned the sequence |
| FlashSequence.SecondRequestRefused | libcamera2/AAAThread.cpp:581-586 | a blocking request while a sequence runs is answered AlreadyExists at once and changes nothing |
| FlashSequence.EnteredWhere | libcamera2/AAAThread.cpp:588-600 | an accepted request for a shot waits for the flash, any other starts a pre-flash |
| FlashSequence.PreFlashSchedule | libcamera2/AAAThread.cpp:638-690 | stage and counters after every number of quiet frames: each phase takes the exposure delay and one frame more, then five frames may pass |
| FlashSequence.PhaseLasts | libcamera2/AAAThread.cpp:638-690 | whatever delays are reported later, a phase lasts for the delay reported when it began and one frame more, which asks for the next phase or abandons the sequence |
| FlashSequence.WaitingEnds | libcamera2/AAAThread.cpp:691-722 | what each frame brings to a sequence that waits for the flash: reached, repeated, abandoned after a bad frame or five others, or still waiting |
| FlashSequence.FailureAbandons | libcamera2/AAAThread.cpp:638-690 | a request that fails abandons the sequence and tells the one that waits |
| FlashSequence.NoStrayRelease | libcamera2/AAAThread.cpp:615-623 | the release marked as never occurring is unreachable |
| FlashSequence.SequenceBounded | libcamera2/AAAThread.cpp:638-736 | with exposure delays of at most d, changing or not, and at most r repetitions, a pre-flash sequence is over within 3(d+1) + 6 + r(d+7) frames |
| FlashSequence.EveryEntryBounded | libcamera2/AAAThread.cpp:638-736 | the same for every sequence entered in any run, however earlier sequences ended |
| FlashSequence.BoundIsTight | libcamera2/AAAThread.cpp:638-736 | for every d and r some frames keep the sequence going for one frame less than the bound |
| AeHistory.AtomFifo.Enqueue | libcamera2/AtomFifo.h:57-66 | appends, or fails and changes nothing when full |
| AeHistory.AtomFifo.Peek | libcamera2/AtomFifo.h:68-73 | the element queued i elements ago, exactly when there are more than i |
| AeHistory.AtomFifo.Dequeue | libcamera2/AtomFifo.h:75-86 | removes the oldest element, or fails when empty |
| AeHistory.AtomFifo.Reset | libcamera2/AtomFifo.h:88-93 | empties the ring |
| AeHistory.AeState.StoreAeResults | libcamera2/AtomAIQ.cpp:1608-1650 | a push keeps the last results up to the depth; an update rewrites the entry i pushes ago only, and fails exactly when the history does not reach that far |
| AeHistory.AeState.RunAeMain | libcamera2/AtomAIQ.cpp:2176-2300 | nothing when locked or without results, the head in still mode, the whole history when invalidated, else one push |
| AeHistory.AeState.PickAeFeedbackResults | libcamera2/AtomAIQ.cpp:1694-1728 | the result pushed feedback-delay pushes ago, or failure exactly when the history does not reach that far |
| AeHistory.AeState.SwitchMode | libcamera2/AtomAIQ.cpp:380-391 | the feedback delay of the new mode and a run from invalidated results |
| AeHistory.AeState.PreFlash | libcamera2/AtomAIQ.cpp:1301-1309 | a pre-flash step makes the feedback undelayed |
| AeHistory.FillsWhole | libcamera2/AtomAIQ.cpp:2233-2242 | the first invalidated run outside still mode makes every entry the new result |
| AeHistory.StaysFull | libcamera2/AtomAIQ.cpp:1608-1650 | a full history stays full through any further events |
| AeHistory.FeedbackNeverFails | libcamera2/AtomAIQ.cpp:1694-1728 | after that run feedback never fails exactly when the delay fits the history and no later switch reports more than it was sized for, and it is then the result pushed feedback-delay pushes ago |
| AeHistory.AlwaysFedExact | libcamera2/AtomAIQ.cpp:380-391 | the same from any state with a full history |
| AeHistory.StillFirstHasNoFeedback | libcamera2/AtomAIQ.cpp:2283-2295 | a session that starts in still mode has current results but no feedback |
| AeHistory.StillKeepsHistory | libcamera2/AtomAIQ.cpp:2286-2289 | a still-mode run changes no feedback but the latest |
| AeHistory.PushDelays | libcamera2/AtomAIQ.cpp:1608-1650 | an ordinary run moves each result one place further into the past |
| AeHistory.EntriesAfterRun | libcamera2/AtomAIQ.cpp:2176-2300 | each entry after any run of AE, from the inputs alone: a lock or no results change nothing; otherwise the new result, or the one kept from before the assist light, is the latest, and the others are kept in still mode, all replaced when invalidated, and moved back by one place otherwise |
| AeHistory.DelayLine | libcamera2/AtomAIQ.cpp:1694-1728 | over any number of ordinary runs entry i is what the library computed i runs ago |
| AeHistory.LockFreezes | libcamera2/AtomAIQ.cpp:2198-2206 | no number of runs under a lock changes a history with current results |
| AeHistory.LatestFeedback | libcamera2/AtomAIQ.cpp:1301-1309 | after a pre-flash step, and after a switch to still mode, the feedback is the latest result |
| JpegMatching.CallbacksThread.HandleMessageJpegDataReady | libcamera2/CallbacksThread.cpp:567-619 | a ready picture is delivered against a waiting request, queued, or, when encoding failed, only its raw buffers go back |
| JpegMatching.CallbacksThread.HandleMessageJpegDataRequest | libcamera2/CallbacksThread.cpp:621-666 | a request takes the oldest queued picture or waits |
| JpegMatching.MatchedStep | libcamera2/CallbacksThread.cpp:567-666 | each step keeps deliveries, queue and waiting requests determined by the numbers of requests and pictures |
| JpegMatching.ConservedStep | libcamera2/CallbacksThread.cpp:567-666 | each step keeps raw buffers given back plus queued equal to those handed over |
| JpegMatching.EveryInterleaving | libcamera2/CallbacksThread.cpp:567-666 | over every interleaving: never both waiting requests and queued pictures, deliveries are the first min(requests, ready) pictures in order, raw buffers are conserved |
| ObserverProtocol.ObserverThread.HandleMessageAttach | libcamera2/AtomIspObserverManager.cpp:273-286 | appends an observer, or refuses one already there |
| ObserverProtocol.ObserverThread.HandleMessageDetach | libcamera2/AtomIspObserverManager.cpp:288-309 | removes an observer, stops with the last one, and answers with the mode |
| ObserverProtocol.ObserverThread.ExecuteMessage | libcamera2/AtomIspObserverManager.cpp:186-252 | one message, the stop after an error, the notifications on an error and on a change of mode, and the mode that was asked for (RunsWhenAsked and PausesWhenAsked say what it leads to) |
| ObserverProtocol.StepKeepsInv | libcamera2/AtomIspObserverManager.cpp:40-94 | a step of manager or thread keeps the protocol's invariant exactly when no observer is attached twice and no thread is set to stopped |
| ObserverProtocol.Reachable | libcamera2/AtomIspObserverManager.cpp:177-217 | the invariant holds in every reachable state |
| ObserverProtocol.StopsWithLastDetach | libcamera2/AtomIspObserverManager.cpp:288-309 | the thread has stopped exactly when its last detach has been answered, and by then it has handled every message |
| ObserverProtocol.ObservedOnlyWithObservers | libcamera2/AtomIspObserverManager.cpp:177-217 | whoever is attached has a thread, and the subject is observed only while running and with observers |
| ObserverProtocol.RunsWhenAsked | libcamera2/AtomIspObserverManager.cpp:177-217 | in every run in which running was the last mode asked for and nothing paused the thread since, a thread with its messages handled and somebody attached goes on to observe |
| ObserverProtocol.PausesWhenAsked | libcamera2/AtomIspObserverManager.cpp:311-322 | if it was paused, the thread waits at its messages whatever else happens |
| ObserverProtocol.PausesOnNotice | libcamera2/AtomIspObserverManager.cpp:196-217 | so it does after a pause or an error that a notification brings back, unless a mode was already asked for |
| ObserverProtocol.StartsPaused | libcamera2/AtomIspObserverManager.cpp:40-71 | so does a new thread until it is asked to run |
| ObserverProtocol.MembersExact | libcamera2/AtomIspObserverManager.cpp:40-94 | the observers attached are, each once, those about whom the last call was an attach |
| ObserverProtocol.NoticesExact | libcamera2/AtomIspObserverManager.cpp:186-252 | how many notifications each step sends |
| ObserverProtocol.SilentAfterLastDetach | libcamera2/AtomIspObserverManager.cpp:73-94 | after that answer no observe or notify call happens, state notifications included: the thread leaves its loop and is joined |
| ObserverProtocol.ManagerIsServed | libcamera2/AtomIspObserverManager.cpp:73-121 | whoever holds the manager's lock gets its answer: some step is enabled and every step brings the release nearer |
| ObserverProtocol.NotAllowedCondemns | libcamera2/AtomIspObserverManager.cpp:186-193 | in every state of the protocol a step that is not allowed queues a message that will not be admitted |
| ObserverProtocol.CondemnedDies | libcamera2/AtomIspObserverManager.cpp:186-193 | such a thread always has a step to take, and whichever steps it takes it ends stopped with observers attached and nobody waiting |
| ObserverProtocol.DeadStaysDead | libcamera2/AtomIspObserverManager.cpp:177-217 | from then on it only leaves its loop |
| Nv12Flip.FlipBufferV | libcamera2/AtomCommon.cpp:361-407 | every row is mirrored in place for every width, luma byte by byte and chroma pair by pair, with the overlap that some odd widths cause; padding and what follows the frame stay |
| Nv12Flip.FlipBufferH | libcamera2/AtomCommon.cpp:409-446 | every column is mirrored in place within its plane, for every width; padding and what follows the frame stay |
| Nv12Flip.FlipVTwice | libcamera2/AtomCommon.cpp:361-407 | mirroring rows twice restores the whole buffer, unless there are chroma rows and the width is 3 modulo 4 |
| Nv12Flip.OverlapLosesByte | libcamera2/AtomCommon.cpp:389-406 | in that case some frame is not restored, for every geometry |
| Nv12Flip.PairsKept | libcamera2/AtomCommon.cpp:389-406 | U and V bytes keep their places within pairs exactly when the width is even or 1 |
| Nv12Flip.FlipHTwice | libcamera2/AtomCommon.cpp:409-446 | mirroring columns twice restores the whole buffer |
| Nv12Flip.FlipsCommute | libcamera2/AtomCommon.cpp:361-446 | the two flips commute |
| Nv12Flip.BothFlipsRotate | libcamera2/AtomCommon.cpp:361-446 | together they rotate the luma plane by 180 degrees, and for an even width the U/V pairs too; row padding is untouched |
| Nv12Flip.PixelsMirrored | libcamera2/AtomCommon.cpp:361-446 | for even width and height, in terms of pixels with their own luma byte and shared U/V pair: one flip mirrors each line, the other the order of the lines |

## Left out

- EM64T: REX prefixes, extra registers and 64-bit operands; the MMX registers and the optional sub-hash.
- Operand extension flags, mnemonic metadata and the sorting of the master table by mnemonic (`BuildTable` takes the rows in mnemonic order).
- Most of the master table: the two excerpts have the arithmetic family, Jcc, JMP, LEA, MOV and the shifts, and some rows of CMPXCHG, FUCOMI, IDIV, SETcc and SHLD; the theorems hold for every table that satisfies the stated predicates.
- Operand lists for `+i` FPU rows and for two-operand IMUL with an immediate, which the decoder does not rebuild: mnemonic, row and length come back, and the FPU register can be read off the opcode byte.
- RoundTrip.EncodeChecked: the self-check's questions to the instruction disassembler, which is not part of this repository's sources; it compares operands for every mnemonic, while the source does so for CALL, JMP, RET and Jcc only.
- TableBuilder.BuildTable: takes as a precondition what the compiler asserts of the rows it keeps, except that memory halves meet free slots, whose exact condition is MemSlotsFreeExact.
- The prefix-writing helper of the encoder, string tables and instruction printing.
- The bodies of the message queue, the autofocus and external-ISP paths of the 3A thread, and the flush, ULL and postview paths of the callbacks thread.
- Exposure arithmetic and the 3A library: results are opaque values.
- keymaster, healthd, and the remaining driver and mode-mapping code of the camera HAL.
