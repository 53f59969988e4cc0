# ASMForge core in Dafny

ASMForge is a small C++ code-generation library. Programs build a module of
named subroutines, each holding a list of abstract x86 instructions. The
library then writes the module out either as raw machine code or as a COFF
object file with a single `.text` section. This project models four parts of
it as pure Dafny functions and proves properties about them:

- the builder's data model;
- the instruction encoder;
- the COFF object writer;
- the older single-file emitter that the encoder and writer replaced.

Modules, one per file:

- `Wrappers` (`wrappers.dfy`): `Result` and `Option`. A failed `assert` or a
  `std::terminate` in the library becomes a `Failure` carrying a `Builder.Error`.
- `Bytes` (`bytes.dfy`):
  - unsigned little-endian serialisation of fixed-width fields and its
    inverse;
  - the truncating casts (`Low8`, `Truncate32`);
  - the packing of C structs with `#pragma pack(1)` as a list of fields;
  - C-string helpers (`Pad8`, `TakeUntilNul`).
- `Builder` (`builder.dfy`): `OpCode`, `Reg`, `InstrType`, `Instruction`,
  `SubRoutine`, `Global`, `Module`, and the builder operations. A subroutine
  handle is its index in the module. Each mutating operation returns the new
  module.
- `Encoder` (`encoder.dfy`): `SubRoutineBuilder::EmitToMemory` and
  `ModuleBuilder::EmitToMemory` from `emitters/ToMemory.cpp`, in two forms:
  - pure functions;
  - loop-based methods proved equal to the functions.
- `Decoder` (`decoder.dfy`): a decoder for the byte forms the encoder
  writes. It reads the ModRM fields as x86 lays them out, so it rejects the
  ADD register-immediate bytes the library writes for any register but AX.
  It is not a full x86 decoder: see Left out. The round-trip lemmas show
  that decoding an encoded subroutine or module gives back its instructions.
- `Coff` (`coff.dfy`): `ModuleBuilder::EmitCOFF` from `emitters/COFF.cpp`.
  The object file is built from the encoded code. Each part is proved to
  lie at its offset and to read back field by field:
  - file header;
  - section header;
  - code;
  - symbol records;
  - string table.
  Long symbol names are proved to lie in the string table, NUL-terminated, at
  the offset their symbol records. The `functionRvas` map is modelled by a
  method with a loop invariant.
- `Legacy` (`legacy.dfy`): the encoder and COFF writer of `emitter.cpp`. It is
  related to the current ones by lemmas:
  - where the two agree;
  - where they collide;
  - the headers they share.

Notes on the model:

- Operands `A` and `B` are unbounded naturals below 2^64. The library builds
  ModRM and opcode bytes by OR-ing shifted 64-bit operands and then casting to
  `uint8_t`. The model takes the OR of the operands' low bytes, which gives
  the same byte for every input.
- Every `(uint32_t)` cast of a size is written out as `Truncate32`.
- The immediate is cut to 4 or 8 little-endian bytes, as the `Emit` helpers
  do.
- The file header's `NumberOfSymbols` is always 1 (COFF.cpp:84), but one
  symbol record is written per global (COFF.cpp:96-119). A COFF reader looks
  for the string table at `PointerToSymbolTable + 18 * NumberOfSymbols`. So
  it looks in the wrong place whenever there is not exactly one global.
  `Coff.CoffObject` writes the header as the source does;
  `Coff.CountedCoffObject` records the number of globals (see Findings).
- Where the code does something other than its names suggest, the model
  follows the code:
  - The current encoder has no case for SUB. SUB therefore takes the
    operand-less path and is written as its enumerator value `03`, with
    REX.W taken back (ToMemory.cpp:84-88).
  - PUSH, POP and the register-only shape `R` are used by ToMemory.cpp. The
    header in this model (builder.h) does not declare them. They are modelled
    as constructors; PUSH and POP have no numeric value, and nothing needs one.
- `Encoder.EncodeInstruction` writes ADD register-immediate as the source
  does: 81, then `0xC0 | (A << 3)` (ToMemory.cpp:58). Everything built on it
  (the loops, the module encoding, the COFF writer) uses those bytes.
  `Encoder.CorrectedEncodeInstruction` writes the `81 /0` form x86 defines
  and agrees with it on every other instruction (see Findings).

## Model

| member | source | states |
|---|---|---|
| Builder.NewInstructionDefaults | ASMForge/builder.h:42-43 | an instruction built from its opcode alone is 64-bit, has shape NONE and has both operands zero |
| Builder.NewModule | ASMForge/builder.cpp:18-20 | a new module has the given name and width and no subroutines or globals |
| Builder.Create | ASMForge/builder.h:74-76 | the created instruction takes the owning module's width flag and keeps the opcode, operands and shape it is given |
| Builder.CreateRegImm | ASMForge/builder.h:77-79 | the register-immediate helper gives shape RI, the register's index as A and the immediate as B, at the module's width |
| Builder.CreateRegReg | ASMForge/builder.h:80-82 | the register-register helper gives shape RR with both registers' indices, at the module's width |
| Builder.NameTaken | ASMForge/builder.cpp:23-28 | the scan over existing subroutines finds a name exactly when some subroutine has that name |
| Builder.CreateSubRoutine | ASMForge/builder.cpp:22-34 | creation fails with a duplicate-name error exactly when the name is taken; otherwise an empty subroutine of that name is appended last and nothing else changes |
| Builder.Append | ASMForge/builder.cpp:9-11 | the instruction goes to the end of that subroutine's code; every other subroutine, the name, the width and the globals are unchanged |
| Builder.GetCodeAfterAppend | ASMForge/builder.cpp:9-15 | reading code after an append gives the old code plus the new instruction for that subroutine, and the old code for every other subroutine |
| Builder.CreateSubRoutineKeepsNamesUnique | ASMForge/builder.cpp:22-34 | a successful creation keeps subroutine names pairwise distinct |
| Builder.AppendKeepsNamesUnique | ASMForge/builder.cpp:9-11 | appending keeps subroutine names pairwise distinct |
| Builder.CreateAllKeepsNamesUnique | ASMForge/builder.cpp:22-34 | after any run of successful creations the names are distinct, the old subroutines come first and the new ones follow in call order |
| Builder.CreateSameNameTwiceFails | ASMForge/builder.cpp:23-27 | creating the same name a second time always fails with the duplicate-name error |
| Encoder.Immediate | ASMForge/emitters/ToMemory.cpp:12-22 | the immediate takes 8 bytes for a 64-bit instruction and 4 bytes otherwise |
| Encoder.ImmediateRoundTrip | ASMForge/emitters/ToMemory.cpp:12-22 | reading the emitted bytes back little-endian gives the operand for 8 bytes, and the operand mod 2^32 for 4 bytes |
| Encoder.DirectModRMDecode | ASMForge/emitters/ToMemory.cpp:37 | for register indices below 8, the register-direct ModRM byte has mode 3 and keeps each index in its own field |
| Encoder.RegFieldsDecode | ASMForge/emitters/ToMemory.cpp:41 | the ModRM byte without mode bits has mode 0 and keeps both register indices in their fields |
| Encoder.EncodeInstruction | ASMForge/emitters/ToMemory.cpp:27-89 | encoding fails, with the unsupported-type error, exactly when the opcode has no case for the shape; a successful encoding is never empty |
| Encoder.BareOpcodeEncoding | ASMForge/emitters/ToMemory.cpp:84-88 | SUB, HLT and RET encode as their enumerator value alone (RET is C3, HLT is F4), never with REX.W, at any width or shape |
| Encoder.OperandOpcodePrefix | ASMForge/emitters/ToMemory.cpp:28-30 | MOV, ADD, PUSH and POP start with REX.W exactly when the instruction is 64-bit |
| Encoder.MovRegRegEncoding | ASMForge/emitters/ToMemory.cpp:35-38 | MOV register-register is 89 followed by a register-direct ModRM with B in the reg field and A in the r/m field |
| Encoder.MovRegImmEncoding | ASMForge/emitters/ToMemory.cpp:43-46 | MOV register-immediate is B8 + (A mod 8), then the immediate; 10 bytes in all for 64-bit, 5 bytes otherwise |
| Encoder.AddRegImmEncoding | ASMForge/emitters/ToMemory.cpp:56-60 | ADD register-immediate as written: 81, then a ModRM with mode 3, A in the reg field and 0 in the r/m field, then the immediate, which reads back as B (or B mod 2^32) |
| Encoder.CorrectedEncodeInstruction | ASMForge/emitters/ToMemory.cpp:27-89 | the corrected encoder fails, with the unsupported-type error, for exactly the instructions the library's encoder rejects |
| Encoder.CorrectedAddRegImmEncoding | ASMForge/emitters/ToMemory.cpp:56-60 | corrected ADD register-immediate: 81, then a ModRM with mode 3, operation field 0 and A in the r/m field, then the immediate |
| Encoder.EncodersAgree | ASMForge/emitters/ToMemory.cpp:27-89 | the corrected and the library's encoder write every instruction other than ADD register-immediate identically |
| Encoder.AddRegImmAsWrittenMisencodes | ASMForge/emitters/ToMemory.cpp:58 | the ModRM byte as written puts the register in the operation field and 0 in the r/m field; the library's bytes equal the corrected encoder's exactly when the register is AX |
| Encoder.AddCxAsWritten | ASMForge/emitters/ToMemory.cpp:56-60 | ADD CX, 5 as written is 81 C8 05 00 00 00 (OR EAX, 5); the corrected encoding is 81 C1 05 00 00 00 |
| Encoder.AddRegRegEncoding | ASMForge/emitters/ToMemory.cpp:61-64 | ADD register-register is 01 followed by a register-direct ModRM with B in the reg field and A in the r/m field |
| Encoder.PushPopEncoding | ASMForge/emitters/ToMemory.cpp:72-82 | PUSH is the single byte 50 + A and POP is 58 + A, after REX.W when 64-bit |
| Encoder.ConcatResults | ASMForge/emitters/ToMemory.cpp:27-90 | concatenating per-instruction results succeeds exactly when every part succeeds, and then gives the parts' bytes in order |
| Encoder.ConcatResultsFirstFailure | ASMForge/emitters/ToMemory.cpp:27-90 | when every part before k succeeds and part k fails, the result is part k's failure |
| Encoder.EmitInstruction | ASMForge/emitters/ToMemory.cpp:28-88 | pushing REX.W, dispatching and popping it back for bare opcodes appends exactly the instruction's encoding to the buffer, or fails with the unsupported-type error |
| Encoder.EmitSubRoutine | ASMForge/emitters/ToMemory.cpp:24-99 | the loop over a subroutine's code yields the in-order concatenation of its instructions' encodings, or the first failure |
| Encoder.EmitModule | ASMForge/emitters/ToMemory.cpp:101-118 | the loop over subroutines yields the concatenation of their encodings in list order, or the first failure |
| Encoder.EmptyModuleEncoding | ASMForge/emitters/ToMemory.cpp:101-118 | a module without subroutines encodes to no bytes |
| Encoder.DemoModuleShape | main.cpp:8-12 | the demonstration module holds one subroutine, "main", with 32-bit MOV AX, 6969 followed by RET |
| Encoder.DemoModuleEncoding | main.cpp:8-15 | the demonstration program encodes to B8 39 1B 00 00 C3 |
| Encoder.CreatedWidthSelectsPrefix | ASMForge/builder.h:74-76 | an instruction made by `Create` opens with REX.W exactly when its module is 64-bit and its opcode is MOV, ADD, PUSH or POP |
| Encoder.CreatedMovRegImm | ASMForge/builder.h:77-79 | `Create(MOV, reg, imm)` is 10 bytes starting with REX.W in a 64-bit module and 5 bytes without it in a 32-bit one: B8 + the register's index, then the immediate reading back as imm (or imm mod 2^32) |
| Encoder.CreatedMovRegReg | ASMForge/builder.h:80-82 | `Create(MOV, x, y)` is REX.W exactly in a 64-bit module, then 89 and a register-direct ModRM with y in the reg field and x in the r/m field |
| Encoder.NewModuleEncoding | ASMForge/builder.cpp:18-20 | a new module of either width encodes to no bytes; its first subroutine can have any name, and the module still encodes to no bytes |
| Decoder.DecodeEncodedInstruction | ASMForge/emitters/ToMemory.cpp:27-89 | every instruction whose registers fit their fields, other than ADD register-immediate on a register but AX, encodes successfully; decoding its bytes, whatever follows, gives back the instruction (in canonical form) and its exact length |
| Decoder.DecodeCorrectedInstruction | ASMForge/emitters/ToMemory.cpp:27-89 | with the corrected ADD register-immediate, every instruction whose registers fit their fields decodes back from its bytes, ADD register-immediate on any register included |
| Decoder.DecodeAddRegImm | ASMForge/emitters/ToMemory.cpp:56-60 | the corrected ADD register-immediate bytes decode back to the ADD, with its register and immediate |
| Decoder.AddRegImmAsWrittenRejected | ASMForge/emitters/ToMemory.cpp:58 | for any register but AX, the bytes the library writes for ADD register-immediate are not an ADD of that register: the decoder rejects them |
| Decoder.EncodeCodeAppend | ASMForge/emitters/ToMemory.cpp:24-99 | encoding concatenated code succeeds exactly when both halves encode, and gives the two encodings back to back |
| Decoder.DecodeEncodedCode | ASMForge/emitters/ToMemory.cpp:24-99 | decoding a subroutine's bytes gives back all its instructions, in order, when each fits its fields and none is ADD register-immediate on a register but AX |
| Decoder.EncodeRoutinesIsEncodeCode | ASMForge/emitters/ToMemory.cpp:101-118 | a module's bytes are the encoding of all its instructions taken subroutine by subroutine |
| Decoder.DecodeEncodedModule | ASMForge/emitters/ToMemory.cpp:101-118 | decoding a module's bytes lists every subroutine's instructions in layout order |
| Coff.FileHeaderRoundTrip | ASMForge/emitters/COFF.cpp:6-14 | the packed file header reads back each member at its offset (0, 2, 4, 8, 12, 16, 18) with its width |
| Coff.SectionHeaderRoundTrip | ASMForge/emitters/COFF.cpp:16-27 | the packed section header reads back its name and every member at its offset |
| Coff.SymbolRoundTrip | ASMForge/emitters/COFF.cpp:29-42 | the packed 18-byte symbol record reads back its name union, value, section number, type, storage class and auxiliary count |
| Coff.LongNameRoundTrip | ASMForge/emitters/COFF.cpp:30-36 | a long name's union reads as a zero word followed by its string-table offset |
| Coff.BuildSymbols | ASMForge/emitters/COFF.cpp:91-120 | one symbol per global; the counter starts at 4 and equals 4 plus the bytes of the string table, which is the sum over long names of their length plus the NUL |
| Coff.SymbolOf | ASMForge/emitters/COFF.cpp:96-117 | symbol k is global k's record: inline name when it has at most 8 bytes, else the counter's value before that name was appended |
| Coff.LongNameStored | ASMForge/emitters/COFF.cpp:99-104 | a long name and its NUL lie in the string table at the offset its symbol records, counted from the table's size word |
| Coff.LongNameOffsetsIncrease | ASMForge/emitters/COFF.cpp:99-104 | long names get strictly increasing offsets in global order, each past the previous name and its NUL |
| Coff.NoLongNames | ASMForge/emitters/COFF.cpp:94-95 | with no long names the string table is its size word alone, reading 04 00 00 00 |
| Coff.ObjectBytes | ASMForge/emitters/COFF.cpp:122-149 | the written buffer's length is headers + code + 18 per symbol + size word + strings |
| Coff.CoffObject | ASMForge/emitters/COFF.cpp:122-126 | the object's length is 60 + the code size cast to 32 bits + 18 per global + the string table size, as `*size` computes |
| Coff.CoffFileHeader | ASMForge/emitters/COFF.cpp:80-89 | bytes 0-19: AMD64 or I386 machine, one section, the timestamp, the symbol table right after the code, symbol count 1, no optional header, large-address-aware only for 64-bit |
| Coff.CoffSectionHeader | ASMForge/emitters/COFF.cpp:70-78 | bytes 20-59: ".text", virtual size and raw size equal to the 32-bit code size, raw data at 60, no relocations or line numbers, characteristics 0x60000020 |
| Coff.CoffCode | ASMForge/emitters/COFF.cpp:137-138 | the code follows the headers, cut to its 32-bit size, which is all of it below 4 GiB |
| Coff.CoffSymbol | ASMForge/emitters/COFF.cpp:91-120 | record k after the code carries global k's value, section 1, the low byte of its type, storage class 2, no auxiliary records, and its name inline or as the string-table offset |
| Coff.CoffStringTable | ASMForge/emitters/COFF.cpp:143-149 | the string table closes the object; its size word reads the table's size, and it is 04 00 00 00 when no name is long |
| Coff.CoffLongNameEntry | ASMForge/emitters/COFF.cpp:99-104 | each long name sits NUL-terminated in the object's string table at the offset the names before it leave |
| Coff.CoffLongName | ASMForge/emitters/COFF.cpp:99-149 | following a long name's recorded offset from the start of the object's string table leads to that name and its NUL |
| Coff.SymbolCountAsWritten | ASMForge/emitters/COFF.cpp:84 | the header records one symbol whatever the number of globals, so the string table lies where a reader looks for it exactly when there is one global |
| Coff.CountedCoffObjectOnlyCountDiffers | ASMForge/emitters/COFF.cpp:80-89 | the object with the symbol count recorded differs from the written one only in that field: every other header field and every later byte is the same |
| Coff.CountedStringTableFound | ASMForge/emitters/COFF.cpp:80-89 | with the symbol count recorded, a reader following the header lands on the string table's size word and reads the table's size |
| Coff.EmitCoff | ASMForge/emitters/COFF.cpp:46-152 | writing the object succeeds exactly when encoding the module succeeds, and the object's length is as `*size` computes |
| Coff.EmitCoffCode | ASMForge/emitters/COFF.cpp:51-66 | a written object carries the module's encoding right after the headers, and its section header records the code size |
| Coff.CollectCode | ASMForge/emitters/COFF.cpp:51-66 | the code loop yields the module's encoding; the map binds exactly the subroutine names, and with distinct names each is bound to the length of the code before it |
| Coff.EmitCoffLoop | ASMForge/emitters/COFF.cpp:46-152 | the loop-based writer produces the object `EmitCoff` describes; with distinct subroutine names its map holds each subroutine's code offset |
| Legacy.LegacyEncodeInstruction | ASMForge/emitter.cpp:78-158 | the older encoding fails, with the unsupported-type error, exactly when MOV, ADD or SUB comes with a shape other than RR, RM or RI |
| Legacy.LegacyLength | ASMForge/emitter.cpp:78-158 | byte counts: REX.W when 64-bit; 1 for MOV RR; 2 for the other RR and RM forms; opcode (plus ModRM for ADD and SUB) plus 4 or 8 bytes for RI; 1 for HLT and RET |
| Legacy.LegacyRexPrefix | ASMForge/emitter.cpp:79-81 | REX.W opens the bytes exactly when the opcode is MOV, ADD or SUB and the instruction is 64-bit |
| Legacy.LegacyAgreesWithEncoder | ASMForge/emitter.cpp:89-96 | MOV RM, MOV RI, HLT and RET are written the same by the older and the current encoder |
| Legacy.LegacyModRMForm | ASMForge/emitter.cpp:89-139 | MOV RM and the RR and RM forms of ADD and SUB are their opcode (8B, 01, 03, 29, 2B) and a ModRM byte with mode 0, A in the reg field and B in the r/m field |
| Legacy.LegacyRegImmForm | ASMForge/emitter.cpp:116-146 | ADD and SUB register-immediate are 81, the ModRM `(A << 3) \| B` (mode 0, A and B in their fields when B is a register number), then the immediate B reading back as B (or B mod 2^32) |
| Legacy.LegacyAddSubImmCollide | ASMForge/emitter.cpp:116-146 | ADD and SUB register-immediate with the same operands are written as the same bytes |
| Legacy.LegacyMovRegRegCollision | ASMForge/emitter.cpp:86-88 | the older MOV RR writes MOV AX, CX and MOV CX, CX both as the single byte 89; the current encoder writes them differently |
| Legacy.LegacyEncodeCodeSucceeds | ASMForge/emitter.cpp:75-168 | an older subroutine encodes exactly when each of its instructions has a case in the dispatch |
| Legacy.LegacyCodeAgrees | ASMForge/emitter.cpp:75-168 | code made only of the shared forms gets the same bytes, or the same failure, from both encoders |
| Legacy.LegacyModuleAgrees | ASMForge/emitter.cpp:170-187 | the same for whole modules |
| Legacy.LegacyDemoModuleEncoding | ASMForge/emitter.cpp:170-187 | the older encoder also writes the demonstration program as B8 39 1B 00 00 C3 |
| Legacy.LegacyObject | ASMForge/emitter.cpp:236-242 | the older object is 60 bytes + the 32-bit code size + one 18-byte symbol + the 4-byte size word |
| Legacy.LegacyEmitCoff | ASMForge/emitter.cpp:189-263 | a missing entry routine fails before anything else; success implies the entry exists and the module encodes; no object exactly when the code is empty |
| Legacy.LegacyEmitCoffSome | ASMForge/emitter.cpp:189-234 | an object is produced exactly when the entry exists, the module encodes to at least one byte and the entry's name fits in 8 bytes with its NUL |
| Legacy.LegacyDemoDefaultEntry | ASMForge/builder.h:61 | with the default entry "_main" the demonstration module, whose subroutine is "main", fails with the missing-entry error |
| Legacy.LegacyDemoMainEntry | ASMForge/emitter.cpp:189-234 | naming "main" as the entry, the demonstration module yields an object |
| Legacy.LegacyFileHeader | ASMForge/emitter.cpp:216-226 | the older file header: AMD64 or I386, one section, the timestamp, the symbol table right after the code, one symbol, large-address-aware for 64-bit |
| Legacy.LegacySectionHeader | ASMForge/emitter.cpp:208-214 | the older `.text` section header: ".text", both sizes equal to the 32-bit code size, raw data at 60, no relocations or line numbers, characteristics 0x60000020 |
| Legacy.LegacyCodeBytes | ASMForge/emitter.cpp:253-254 | the code follows the headers, cut to its 32-bit size |
| Legacy.LegacyEntrySymbol | ASMForge/emitter.cpp:228-234 | the entry symbol has its name inline, value 0, section 1, type 0x20, storage class 2 and no auxiliary records; the name read back as a C string is the entry, and the bytes after its NUL are zeros (see Left out) |
| Legacy.LegacyStringTable | ASMForge/emitter.cpp:236 | the older string table is its size word alone, 04 00 00 00 |
| Legacy.LegacySameHeadersAsCurrent | ASMForge/emitter.cpp:205-254 | for the same code the older and current objects open with the same headers and code, whatever the globals |
| Bytes.LittleEndianRoundTrip | ASMForge/emitters/COFF.cpp:128-149 | a value written as n little-endian bytes reads back as the value mod 256^n, which is the truncating cast to the field's width |
| Bytes.TakeUntilNulPadded | ASMForge/emitter.cpp:229 | a NUL-free name padded with zeros reads back as that name when treated as a C string |

## Left out

- Output and I/O: main.cpp prints the object and writes it to a file (main.cpp:14-42). Only the bytes are modelled.
- Memory ownership is not modelled: `new[]`/`delete[]` buffers, `unique_ptr` subroutines and the raw back-pointer to the module. Modules and subroutines are values, and a handle is an index.
- `time(nullptr)` is a parameter, `timestamp`.
- `*(uint32_t*)global->value` is not modelled: it reads memory through a pointer. `Global.value` is the 32-bit value that the read would produce.
- `Global`: the header that declares `Global` and `ExtendedModuleBuilder` is not part of this model. COFF.cpp reads `globals` as a member of `ModuleBuilder`, and forge.h names `ExtendedModuleBuilder` only as the return type of `New`. `Global` is modelled from its uses in COFF.cpp, and `Module` carries the list. `make-global`, the cursor-aware `Append` and forge.cpp's `New` are left out for the same reason.
- The `NDEBUG` build is not modelled. In the current encoder, `assert` then does nothing and an unsupported shape writes only what came before it. emitter.cpp defines its own `assert` (emitter.cpp:47-56): a block that reports and calls `std::terminate` in the checking build, and `(void)0` under `NDEBUG`. Its entry-point check (emitter.cpp:196) has no `;` after it. In the checking build the block needs none, but under `NDEBUG` the `(void)0` runs straight into the next declaration, so emitter.cpp does not compile in that build at all. The model follows the checking build: a failed assert is a `Failure`.
- Memory operands: the RM shapes are modelled byte for byte. What they mean to a processor is not.
- Decoder.DecodeInstruction: reads the byte forms the encoder writes, not x86 in general. A 64-bit ADD register-immediate carries an 8-byte immediate, as the encoder writes it; x86 reads `REX.W 81 /0` with a 4-byte sign-extended immediate. `8B` with mode 0 and r/m 4 or 5 is decoded as two bytes; x86 follows it with a SIB byte or a 32-bit displacement. The round-trip lemmas therefore show that the encoder is consistent with this decoder, not that a processor reads the same instruction.
- Bytes.NameBytes: names are Dafny strings, and each character is written as its low byte. This stands for the bytes of a `std::string` only when every character is below 256. Beyond that, `IsLongName` counts characters rather than bytes, and two names that differ only above the low byte are written alike.
- Builder.Create: the C++ overloads are chosen by argument type. Here they are three functions: `Create`, `CreateRegImm` and `CreateRegReg`.
- Coff.EmitCoff: requires a string-table size below 2^32. The 32-bit `stringTableSize` counter would wrap, and the final `memcpy` would then copy the wrong length.
- Coff.CoffLongName: requires a string-table size below 2^32, for the same reason.
- Coff.LongNameOffsetsIncrease: requires a string-table size below 2^32, for the same reason.
- Coff.CoffSymbol: states the recorded offset as the counter cast to 32 bits, and is proved for any table size.
- Coff.CollectCode: the per-name offsets are proved only when subroutine names are distinct. `CreateSubRoutine` guarantees that. The map is never read afterwards.
- `size_t` overflow of `*size` is not modelled: the sizes are unbounded naturals.
- Legacy.LegacyEmitCoff: the `!code` test is not modelled, since `new[]` never yields null. Only the empty-code case returns no object.
- Legacy.LegacyEntrySymbol: the symbol is zero-initialised (emitter.cpp:228) before `strncpy_s` copies the entry into it (emitter.cpp:229). The C string read back from the name field holds in every C runtime. The bytes after its NUL are modelled as zeros, the zero-initialised struct's, but C11 Annex K (K.3.7.1.4) leaves them unspecified. A runtime that fills the rest of the buffer, as the debug CRT does with 0xFE, writes `6D 61 69 6E 00 FE FE FE` for "main"; the model writes `6D 61 69 6E 00 00 00 00`.
- Legacy.LegacyEmitCoff: when `strncpy_s` cannot fit the entry name, the runtime-constraint handler runs; it aborts by default. The model writes this as the `EntryNameTooLong` failure.
- Legacy.LegacyEncodeInstruction: requires an opcode other than PUSH and POP. The older file predates them.
- Legacy.LegacyEmitCoff: requires no PUSH or POP in any subroutine, for the same reason.
- The older writer advances its pointer by `stringTableSize` after the last write (emitter.cpp:260). Nothing reads it afterwards, so it has no effect on the bytes.

## Findings

| source | as written | input that shows it | evidently intended | confidence | as-written member | corrected member |
|---|---|---|---|---|---|---|
| ASMForge/emitters/ToMemory.cpp:58 | ADD register-immediate writes the ModRM byte `0xC0 \| (A << 3)`. This puts the register in the reg field, which for opcode 0x81 selects the operation, and leaves the r/m field, the destination, at 0. | ADD CX, 5 (32-bit) is written `81 C8 05 00 00 00`, which x86 executes as OR EAX, 5 | `0xC0 \| A` (`81 /0`), giving `81 C1 05 00 00 00` | not executed | Encoder.AddRegImmAsWrittenMisencodes | Decoder.DecodeCorrectedInstruction |
| ASMForge/emitter.cpp:87 | The older MOV register-register writes a single byte, `0x88 \| (A << 3) \| B`, with no ModRM byte. Different register pairs give the same byte. | MOV AX, CX and MOV CX, CX are both written `89` | opcode `89` followed by a register-direct ModRM byte, as the current encoder writes it | not executed | Legacy.LegacyMovRegRegCollision | Encoder.MovRegRegEncoding |
| ASMForge/emitters/COFF.cpp:84 | The file header's `NumberOfSymbols` is always 1, while one 18-byte record is written per global (COFF.cpp:96-119). A reader finds the string table at `PointerToSymbolTable + 18 * NumberOfSymbols`. | a module with no globals or with two: the reader looks 18 bytes too far or too near | `NumberOfSymbols` set to the number of globals | not executed | Coff.SymbolCountAsWritten | Coff.CountedStringTableFound |
