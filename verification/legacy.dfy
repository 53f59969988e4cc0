/** The earlier single-file emitter (ASMForge/emitter.cpp): an encoder with
    an opcode table of its own, and a COFF writer whose only symbol is the
    entry point. Its header predates PUSH and POP, so the code it is given
    never holds them, and it knows nothing of globals. */
module Legacy {
  import opened Wrappers
  import opened Bytes
  import opened Builder
  import opened Encoder
  import opened Coff

  /** The opcodes the older header declares: all but PUSH and POP. */
  predicate LegacyOp(op: OpCode) {
    op.HasValue()
  }

  predicate LegacyCode(code: seq<Instruction>) {
    forall i | 0 <= i < |code| :: LegacyOp(code[i].op)
  }

  predicate LegacyRoutines(routines: seq<SubRoutine>) {
    forall k | 0 <= k < |routines| :: LegacyCode(routines[k].code)
  }

  /** The opcodes with a case of their own in the older dispatch. */
  predicate LegacyHasOperands(op: OpCode) {
    op == MOV || op == ADD || op == SUB
  }

  /** The shapes that dispatch has a case for: RR, RM and RI for each of
      MOV, ADD and SUB. Every other shape reaches a failed assertion. */
  predicate LegacySupported(instr: Instruction) {
    LegacyHasOperands(instr.op) ==> instr.shape == RR || instr.shape == RM || instr.shape == RI
  }

  /** What the older dispatch emits after the optional REX.W. MOV
      register-register is the single byte `0x88 | (A << 3) | B`; every
      other form writes `(A << 3) | B` as its ModRM byte, and the
      register-immediate forms of ADD and SUB share opcode 0x81. */
  function LegacyOperandForm(instr: Instruction): (r: Result<seq<byte>, Error>)
    requires LegacyHasOperands(instr.op)
  {
    match instr.op
    case MOV =>
      (match instr.shape
       case RR => Success([0x88 | RegFields(instr.a, instr.b)])
       case RM => Success([0x8B, RegFields(instr.a, instr.b)])
       case RI => Success([0xB8 | Low8(instr.a % 8)] + Immediate(instr.b, instr.is64))
       case _ => Failure(UnsupportedInstructionType))
    case ADD =>
      (match instr.shape
       case RR => Success([0x01, RegFields(instr.a, instr.b)])
       case RM => Success([0x03, RegFields(instr.a, instr.b)])
       case RI => Success([0x81, RegFields(instr.a, instr.b)] + Immediate(instr.b, instr.is64))
       case _ => Failure(UnsupportedInstructionType))
    case SUB =>
      (match instr.shape
       case RR => Success([0x29, RegFields(instr.a, instr.b)])
       case RM => Success([0x2B, RegFields(instr.a, instr.b)])
       case RI => Success([0x81, RegFields(instr.a, instr.b)] + Immediate(instr.b, instr.is64))
       case _ => Failure(UnsupportedInstructionType))
  }

  /** One instruction of the older `SubRoutineBuilder::EmitToMemory`. A
      64-bit instruction first gets REX.W; HLT and RET take it back and
      emit their enumerator value. */
  function LegacyEncodeInstruction(instr: Instruction): (r: Result<seq<byte>, Error>)
    requires LegacyOp(instr.op)
    ensures r.Failure? <==> !LegacySupported(instr)
    ensures r.Failure? ==> r.error == UnsupportedInstructionType
  {
    if LegacyHasOperands(instr.op) then
      var form :- LegacyOperandForm(instr);
      Success(Prefix(instr.is64) + form)
    else
      Success([instr.op.Value()])
  }

  /** The number of bytes a supported instruction takes: REX.W when 64-bit,
      then one byte for MOV register-register, two for the other
      register-register and register-memory forms, and for the immediate
      forms the opcode (and ModRM, for ADD and SUB) followed by 4 or 8
      immediate bytes; HLT and RET take one byte whatever their width. */
  lemma {:induction false} LegacyLength(instr: Instruction)
    requires LegacyOp(instr.op) && LegacySupported(instr)
    ensures var n := |LegacyEncodeInstruction(instr).value|;
            var p := |Prefix(instr.is64)|;
            && (!LegacyHasOperands(instr.op) ==> n == 1)
            && (instr.op == MOV && instr.shape == RR ==> n == p + 1)
            && (LegacyHasOperands(instr.op) && instr.shape == RM ==> n == p + 2)
            && ((instr.op == ADD || instr.op == SUB) && instr.shape == RR ==> n == p + 2)
            && (instr.op == MOV && instr.shape == RI ==> n == p + 1 + ImmSize(instr.is64))
            && ((instr.op == ADD || instr.op == SUB) && instr.shape == RI ==> n == p + 2 + ImmSize(instr.is64))
  {
  }

  /** REX.W opens the bytes of MOV, ADD and SUB exactly when the
      instruction is 64-bit; HLT and RET never carry it. */
  lemma {:induction false} LegacyRexPrefix(instr: Instruction)
    requires LegacyOp(instr.op) && LegacySupported(instr)
    ensures LegacyEncodeInstruction(instr).value[0] == REX_W <==> LegacyHasOperands(instr.op) && instr.is64
  {
    if LegacyHasOperands(instr.op) && !instr.is64 {
      var first := LegacyOperandForm(instr).value[0];
      if instr.op == MOV && instr.shape == RR {
        assert first & 0x80 == 0x80;
      } else if instr.op == MOV && instr.shape == RI {
        assert first & 0xF8 == 0xB8 by {
          FoldedOpcode(0xB8, Low8(instr.a % 8) & 7);
        }
      }
    }
  }

  /** Where the two encoders agree: MOV register-memory, MOV
      register-immediate, HLT and RET are written the same by both. */
  predicate SharedForm(instr: Instruction) {
    || (instr.op == MOV && (instr.shape == RM || instr.shape == RI))
    || instr.op == HLT || instr.op == RET
  }

  lemma {:induction false} LegacyAgreesWithEncoder(instr: Instruction)
    requires SharedForm(instr)
    ensures LegacyEncodeInstruction(instr) == EncodeInstruction(instr)
  {
  }

  /** The older MOV register-register is one byte with A and B OR-ed into
      it, so different instructions collide: MOV AX, CX and MOV CX, CX are
      both `89`. The current encoder keeps them apart. */
  lemma {:induction false} LegacyMovRegRegCollision()
    ensures var x, y := Instruction(MOV, 0, 1, false, RR), Instruction(MOV, 1, 1, false, RR);
            && x != y
            && LegacyEncodeInstruction(x) == LegacyEncodeInstruction(y) == Success([0x89])
            && EncodeInstruction(x) != EncodeInstruction(y)
  {
    var x, y := Instruction(MOV, 0, 1, false, RR), Instruction(MOV, 1, 1, false, RR);
    CollisionBytes();
    assert LegacyOperandForm(x).value == [0x89];
    assert LegacyOperandForm(y).value == [0x89];
    assert Prefix(false) + [0x89] == [0x89];
    assert EncodeInstruction(x).value[1] == 0xC8;
    assert EncodeInstruction(y).value[1] == 0xC9;
  }

  /** The bytes behind the collision, as bit-vector facts. */
  lemma {:induction false} CollisionBytes()
    ensures 0x88 | RegFields(0, 1) == 0x89 && 0x88 | RegFields(1, 1) == 0x89
    ensures DirectModRM(1, 0) == 0xC8 && DirectModRM(1, 1) == 0xC9
  {
    assert Low8(0) == 0 && Low8(1) == 1;
  }

  /** MOV register-memory and the register-register and register-memory
      forms of ADD and SUB: the opcode (8B, 01, 03, 29, 2B), then a ModRM
      byte without mode bits whose reg field is A and whose r/m field is B. */
  lemma {:induction false} LegacyModRMForm(instr: Instruction)
    requires LegacyHasOperands(instr.op) && (instr.shape == RM || (instr.op != MOV && instr.shape == RR))
    requires instr.a < 8 && instr.b < 8
    ensures var bytes := LegacyEncodeInstruction(instr).value;
            var p := |Prefix(instr.is64)|;
            && |bytes| == p + 2
            && bytes[p] == (match instr.op
                            case MOV => 0x8B
                            case ADD => if instr.shape == RR then 0x01 else 0x03
                            case _ => if instr.shape == RR then 0x29 else 0x2B)
            && ModField(bytes[p + 1]) == 0 && RegField(bytes[p + 1]) == instr.a && RmField(bytes[p + 1]) == instr.b
  {
    var bytes := LegacyEncodeInstruction(instr).value;
    assert bytes == Prefix(instr.is64) + LegacyOperandForm(instr).value;
    RegFieldsDecode(instr.a, instr.b);
  }

  /** ADD and SUB register-immediate: 0x81, then the ModRM byte `(A << 3) | B`,
      whose fields hold A and B when both are register numbers, then the
      immediate B, which reads back as B or B modulo 2^32. */
  lemma {:induction false} LegacyRegImmForm(instr: Instruction)
    requires (instr.op == ADD || instr.op == SUB) && instr.shape == RI && instr.a < 8
    ensures var bytes := LegacyEncodeInstruction(instr).value;
            var p := |Prefix(instr.is64)|;
            && |bytes| == p + 2 + ImmSize(instr.is64)
            && bytes[p] == 0x81
            && (instr.b < 8 ==>
                  ModField(bytes[p + 1]) == 0 && RegField(bytes[p + 1]) == instr.a && RmField(bytes[p + 1]) == instr.b)
            && LeValue(bytes[p + 2..]) == if instr.is64 then instr.b else instr.b % U32_LIMIT
  {
    var bytes := LegacyEncodeInstruction(instr).value;
    var p := |Prefix(instr.is64)|;
    assert bytes == Prefix(instr.is64) + [0x81, RegFields(instr.a, instr.b)] + Immediate(instr.b, instr.is64);
    assert bytes[p + 2..] == Immediate(instr.b, instr.is64);
    ImmediateRoundTrip(instr.b, instr.is64);
    if instr.b < 8 {
      RegFieldsDecode(instr.a, instr.b);
    }
  }

  /** ADD and SUB register-immediate are written alike: nothing in the bytes
      tells the two operations apart. */
  lemma {:induction false} LegacyAddSubImmCollide(a: u64, b: u64, is64: bool)
    ensures var add, sub := Instruction(ADD, a, b, is64, RI), Instruction(SUB, a, b, is64, RI);
            && add != sub
            && LegacyEncodeInstruction(add).Success?
            && LegacyEncodeInstruction(add) == LegacyEncodeInstruction(sub)
  {
  }

  // Subroutines and modules.

  function LegacyEncodings(code: seq<Instruction>): (parts: seq<Result<seq<byte>, Error>>)
    requires LegacyCode(code)
    ensures |parts| == |code|
    ensures forall i | 0 <= i < |code| :: parts[i] == LegacyEncodeInstruction(code[i])
  {
    seq(|code|, i requires 0 <= i < |code| => LegacyEncodeInstruction(code[i]))
  }

  /** The older `SubRoutineBuilder::EmitToMemory`: the instructions' bytes
      in order, or the first unsupported instruction's failure. */
  function LegacyEncodeCode(code: seq<Instruction>): Result<seq<byte>, Error>
    requires LegacyCode(code)
  {
    ConcatResults(LegacyEncodings(code))
  }

  function LegacyRoutineEncodings(routines: seq<SubRoutine>): (parts: seq<Result<seq<byte>, Error>>)
    requires LegacyRoutines(routines)
    ensures |parts| == |routines|
    ensures forall k | 0 <= k < |routines| :: parts[k] == LegacyEncodeCode(routines[k].code)
  {
    seq(|routines|, k requires 0 <= k < |routines| => LegacyEncodeCode(routines[k].code))
  }

  /** The older `ModuleBuilder::EmitToMemory`: the subroutines' bytes in
      list order. */
  function LegacyEncodeModule(m: Module): Result<seq<byte>, Error>
    requires LegacyRoutines(m.subRoutines)
  {
    ConcatResults(LegacyRoutineEncodings(m.subRoutines))
  }

  /** A subroutine encodes exactly when each of its instructions has a
      case in the dispatch. */
  lemma {:induction false} LegacyEncodeCodeSucceeds(code: seq<Instruction>)
    requires LegacyCode(code)
    ensures LegacyEncodeCode(code).Success? <==> forall i | 0 <= i < |code| :: LegacySupported(code[i])
  {
    var parts := LegacyEncodings(code);
    if LegacyEncodeCode(code).Success? {
      forall i | 0 <= i < |code| ensures LegacySupported(code[i]) {
        assert parts[i].Success?;
      }
    }
  }

  /** Code made only of the forms both encoders write alike gets the same
      bytes, or the same failure, from both. */
  lemma {:induction false} LegacyCodeAgrees(code: seq<Instruction>)
    requires forall i | 0 <= i < |code| :: SharedForm(code[i])
    ensures LegacyCode(code) && LegacyEncodeCode(code) == EncodeCode(code)
  {
    assert LegacyCode(code) by {
      forall i | 0 <= i < |code| ensures LegacyOp(code[i].op) {
        assert SharedForm(code[i]);
      }
    }
    forall i | 0 <= i < |code| ensures LegacyEncodings(code)[i] == Encodings(code)[i] {
      LegacyAgreesWithEncoder(code[i]);
    }
    assert LegacyEncodings(code) == Encodings(code);
  }

  /** The same for whole modules. */
  lemma {:induction false} LegacyModuleAgrees(m: Module)
    requires forall k, i | 0 <= k < |m.subRoutines| && 0 <= i < |m.subRoutines[k].code| ::
               SharedForm(m.subRoutines[k].code[i])
    ensures LegacyRoutines(m.subRoutines) && LegacyEncodeModule(m) == EncodeModule(m)
  {
    var routines := m.subRoutines;
    forall k | 0 <= k < |routines|
      ensures LegacyCode(routines[k].code) && LegacyEncodeCode(routines[k].code) == EncodeCode(routines[k].code)
    {
      LegacyCodeAgrees(routines[k].code);
    }
    assert LegacyRoutineEncodings(routines) == RoutineEncodings(routines);
  }

  /** The demonstration program gets the same bytes from the older encoder. */
  lemma {:induction false} LegacyDemoModuleEncoding()
    ensures LegacyRoutines(DemoModule().subRoutines)
    ensures LegacyEncodeModule(DemoModule()) == Success([0xB8, 0x39, 0x1B, 0x00, 0x00, 0xC3])
  {
    var m := DemoModule();
    DemoModuleShape();
    assert SharedForm(m.subRoutines[0].code[0]) && SharedForm(m.subRoutines[0].code[1]);
    LegacyModuleAgrees(m);
    DemoModuleEncoding();
  }

  // The object file.

  /** `strncpy_s(ShortName, entry.c_str(), 8)` succeeds when the entry's C
      string leaves room in the eight bytes for its terminating NUL. */
  predicate EntryNameFits(entry: string) {
    |TakeUntilNul(NameBytes(entry))| < SHORT_NAME_MAX
  }

  /** `IMAGE_SYM_DTYPE_FUNCTION << 4`: the symbol type of a function. */
  const FUNCTION_SYMBOL_TYPE: u16 := 0x20

  /** The entry point's symbol: its C string inline, value 0 in section 1,
      a function, external. The name field's bytes after the NUL are those
      of the zero-initialised struct; `strncpy_s` leaves them unspecified,
      and a runtime may overwrite them. */
  function EntrySymbol(entry: string): Symbol {
    Symbol(ShortName(TakeUntilNul(NameBytes(entry))), 0, TEXT_SECTION_NUMBER, FUNCTION_SYMBOL_TYPE,
           STORAGE_CLASS_EXTERNAL, 0)
  }

  /** The object the older writer produces around encoded code: the same
      headers as the current writer, the code cut to its 32-bit size, the
      entry symbol and an empty string table. */
  function LegacyObject(is64Bit: bool, timestamp: u32, code: seq<byte>, entry: string): (out: seq<byte>)
    ensures |out| == HEADERS_SIZE + Truncate32(|code|) + SYMBOL_SIZE + STRING_TABLE_HEADER
  {
    var n := Truncate32(|code|);
    ObjectBytes(TextFileHeader(is64Bit, timestamp, n), TextSectionHeader(n), code[..n], [EntrySymbol(entry)],
                STRING_TABLE_HEADER, [])
  }

  /** The older `ModuleBuilder::EmitCOFF(size_t*, entry)`. It fails when no
      subroutine has the entry's name, checked before anything is encoded;
      then when encoding fails; it yields no object (the null pointer) for a
      module without code; and it fails when the entry's name does not fit
      the symbol's eight bytes. The entry defaults to "_main". */
  function LegacyEmitCoff(m: Module, timestamp: u32, entry: string := "_main"): (r: Result<Option<seq<byte>>, Error>)
    requires LegacyRoutines(m.subRoutines)
    ensures !HasRoutineNamed(m.subRoutines, entry) ==> r == Failure(NoEntryPoint(entry))
    ensures r.Success? ==> HasRoutineNamed(m.subRoutines, entry) && LegacyEncodeModule(m).Success?
    ensures r == Success(None) <==> HasRoutineNamed(m.subRoutines, entry) && LegacyEncodeModule(m) == Success([])
    ensures r.Success? && r.value.Some? ==>
              && EntryNameFits(entry)
              && |r.value.value| == HEADERS_SIZE + Truncate32(|LegacyEncodeModule(m).value|) + SYMBOL_SIZE
                                    + STRING_TABLE_HEADER
  {
    if !NameTaken(m.subRoutines, entry) then Failure(NoEntryPoint(entry))
    else
      var code :- LegacyEncodeModule(m);
      if |code| == 0 then Success(None)
      else if !EntryNameFits(entry) then Failure(EntryNameTooLong(entry))
      else Success(Some(LegacyObject(m.is64Bit, timestamp, code, entry)))
  }

  /** The older writer produces an object exactly when the entry exists,
      the module encodes to some bytes and the entry's name fits. */
  lemma {:induction false} LegacyEmitCoffSome(m: Module, timestamp: u32, entry: string)
    requires LegacyRoutines(m.subRoutines)
    ensures var r := LegacyEmitCoff(m, timestamp, entry);
            r.Success? && r.value.Some?
            <==> && HasRoutineNamed(m.subRoutines, entry)
                 && LegacyEncodeModule(m).Success? && |LegacyEncodeModule(m).value| > 0
                 && EntryNameFits(entry)
  {
  }

  /** The demonstration module's subroutine is "main", so the default entry
      "_main" is missing and the older writer fails. */
  lemma {:induction false} LegacyDemoDefaultEntry(timestamp: u32)
    ensures LegacyRoutines(DemoModule().subRoutines)
    ensures LegacyEmitCoff(DemoModule(), timestamp) == Failure(NoEntryPoint("_main"))
  {
    LegacyDemoModuleEncoding();
    DemoModuleShape();
    var routines := DemoModule().subRoutines;
    assert routines[0].name == "main" != "_main";
    assert !HasRoutineNamed(routines, "_main");
  }

  /** Naming "main" as the entry instead yields an object. */
  lemma {:induction false} LegacyDemoMainEntry(timestamp: u32)
    ensures LegacyRoutines(DemoModule().subRoutines)
    ensures LegacyEmitCoff(DemoModule(), timestamp, "main").Success?
    ensures LegacyEmitCoff(DemoModule(), timestamp, "main").value.Some?
  {
    LegacyDemoModuleEncoding();
    DemoModuleShape();
    assert DemoModule().subRoutines[0].name == "main";
    assert |NameBytes("main")| == 4;
    LegacyEmitCoffSome(DemoModule(), timestamp, "main");
  }

  // The object read back.

  /** The file header is the current writer's: AMD64 or I386, one section,
      the timestamp, the symbol table right after the code, one symbol, and
      the large-address-aware flag for a 64-bit module. */
  lemma {:induction false} LegacyFileHeader(is64Bit: bool, timestamp: u32, code: seq<byte>, entry: string)
    ensures var out := LegacyObject(is64Bit, timestamp, code, entry);
            var n := Truncate32(|code|);
            && FieldAt(out, 0, 2) == (if is64Bit then 0x8664 else 0x14C)
            && FieldAt(out, 2, 2) == 1
            && FieldAt(out, 4, 4) == timestamp
            && FieldAt(out, 8, 4) == Truncate32(HEADERS_SIZE + n)
            && FieldAt(out, 12, 4) == 1
            && FieldAt(out, 16, 2) == 0
            && FieldAt(out, 18, 2) == (if is64Bit then 0x20 else 0)
  {
    var n := Truncate32(|code|);
    var out := LegacyObject(is64Bit, timestamp, code, entry);
    ObjectHeaderPart(out, TextFileHeader(is64Bit, timestamp, n), TextSectionHeader(n), code[..n],
                     [EntrySymbol(entry)], STRING_TABLE_HEADER, []);
    FileHeaderAt(out, TextFileHeader(is64Bit, timestamp, n));
  }

  /** The `.text` section header describes the code as the current
      writer's does. */
  lemma {:induction false} LegacySectionHeader(is64Bit: bool, timestamp: u32, code: seq<byte>, entry: string)
    ensures var out := LegacyObject(is64Bit, timestamp, code, entry);
            var n := Truncate32(|code|);
            && out[20..28] == TEXT_NAME
            && FieldAt(out, 28, 4) == n
            && FieldAt(out, 32, 4) == 0
            && FieldAt(out, 36, 4) == n
            && FieldAt(out, 40, 4) == HEADERS_SIZE
            && FieldAt(out, 44, 4) == 0
            && FieldAt(out, 48, 4) == 0
            && FieldAt(out, 52, 2) == 0
            && FieldAt(out, 54, 2) == 0
            && FieldAt(out, 56, 4) == 0x6000_0020
  {
    var n := Truncate32(|code|);
    var out := LegacyObject(is64Bit, timestamp, code, entry);
    ObjectSectionPart(out, TextFileHeader(is64Bit, timestamp, n), TextSectionHeader(n), code[..n],
                      [EntrySymbol(entry)], STRING_TABLE_HEADER, []);
    SectionHeaderAt(out, TextSectionHeader(n));
  }

  /** The code follows the headers, cut to its 32-bit size. */
  lemma {:induction false} LegacyCodeBytes(is64Bit: bool, timestamp: u32, code: seq<byte>, entry: string)
    ensures var out := LegacyObject(is64Bit, timestamp, code, entry);
            var n := Truncate32(|code|);
            out[HEADERS_SIZE..HEADERS_SIZE + n] == code[..n]
  {
    var n := Truncate32(|code|);
    ObjectCodePart(LegacyObject(is64Bit, timestamp, code, entry), TextFileHeader(is64Bit, timestamp, n),
                   TextSectionHeader(n), code[..n], [EntrySymbol(entry)], STRING_TABLE_HEADER, [], HEADERS_SIZE + n);
  }

  /** The entry's symbol record, read from the object. */
  lemma {:induction false} LegacyEntrySymbolRecord(is64Bit: bool, timestamp: u32, code: seq<byte>, entry: string)
    ensures var out := LegacyObject(is64Bit, timestamp, code, entry);
            var s := HEADERS_SIZE + Truncate32(|code|);
            && s + SYMBOL_SIZE <= |out|
            && out[s..s + SYMBOL_SIZE] == EntrySymbol(entry).Bytes()
  {
    var n := Truncate32(|code|);
    var out := LegacyObject(is64Bit, timestamp, code, entry);
    var s := HEADERS_SIZE + n;
    ObjectSymbolsPart(out, TextFileHeader(is64Bit, timestamp, n), TextSectionHeader(n), code[..n],
                      [EntrySymbol(entry)], STRING_TABLE_HEADER, [], s, s + SYMBOL_SIZE);
    RecordInSymbols(out, s, s + SYMBOL_SIZE, [EntrySymbol(entry)], 0, s);
  }

  /** The entry's symbol follows the code: its name inline, value 0,
      section 1, type 0x20 (a function), storage class 2 (external), no
      auxiliary records; and the name read back as a C string is the
      entry's. The zeros after the name are the zero-initialised struct's;
      the C string read back does not depend on them. */
  lemma {:induction false} LegacyEntrySymbol(is64Bit: bool, timestamp: u32, code: seq<byte>, entry: string)
    requires EntryNameFits(entry)
    ensures var out := LegacyObject(is64Bit, timestamp, code, entry);
            var s := HEADERS_SIZE + Truncate32(|code|);
            && s + SYMBOL_SIZE <= |out|
            && out[s..s + 8] == Pad8(TakeUntilNul(NameBytes(entry)))
            && TakeUntilNul(out[s..s + 8]) == TakeUntilNul(NameBytes(entry))
            && FieldAt(out, s + 8, 4) == 0
            && FieldAt(out, s + 12, 2) == 1
            && FieldAt(out, s + 14, 2) == 0x20
            && FieldAt(out, s + 16, 1) == 2
            && FieldAt(out, s + 17, 1) == 0
  {
    var out := LegacyObject(is64Bit, timestamp, code, entry);
    var s := HEADERS_SIZE + Truncate32(|code|);
    var c := TakeUntilNul(NameBytes(entry));
    LegacyEntrySymbolRecord(is64Bit, timestamp, code, entry);
    SymbolAt(out, s, EntrySymbol(entry));
    assert Pad8(c) == c + Zeros(8 - |c|);
    TakeUntilNulPadded(c, 8 - |c|);
  }

  /** The string table is its size word alone: `04 00 00 00`. */
  lemma {:induction false} LegacyStringTable(is64Bit: bool, timestamp: u32, code: seq<byte>, entry: string)
    ensures var out := LegacyObject(is64Bit, timestamp, code, entry);
            var s := HEADERS_SIZE + Truncate32(|code|) + SYMBOL_SIZE;
            s <= |out| && out[s..] == [4, 0, 0, 0]
  {
    var n := Truncate32(|code|);
    var s := HEADERS_SIZE + n + SYMBOL_SIZE;
    ObjectTablePart(LegacyObject(is64Bit, timestamp, code, entry), TextFileHeader(is64Bit, timestamp, n),
                    TextSectionHeader(n), code[..n], [EntrySymbol(entry)], STRING_TABLE_HEADER, [], s);
    EmptyStringTable();
  }

  lemma {:induction false} EmptyStringTable()
    ensures LittleEndian(STRING_TABLE_HEADER, 4) + [] == [4, 0, 0, 0]
  {
    assert Low8(4) == 4 && Low8(0) == 0;
    assert LittleEndian(0, 3) == [0, 0, 0];
  }

  /** For the same module the older writer's object opens with the same
      headers and code as the current writer's, whatever the globals. */
  lemma {:induction false} LegacySameHeadersAsCurrent(is64Bit: bool, timestamp: u32, code: seq<byte>, entry: string,
                                                      globals: seq<Global>)
    ensures var legacy := LegacyObject(is64Bit, timestamp, code, entry);
            var current := CoffObject(is64Bit, timestamp, code, globals);
            var n := Truncate32(|code|);
            && legacy[..FILE_HEADER_SIZE] == current[..FILE_HEADER_SIZE]
            && legacy[FILE_HEADER_SIZE..HEADERS_SIZE] == current[FILE_HEADER_SIZE..HEADERS_SIZE]
            && legacy[HEADERS_SIZE..HEADERS_SIZE + n] == current[HEADERS_SIZE..HEADERS_SIZE + n]
  {
    var n := Truncate32(|code|);
    var out := LegacyObject(is64Bit, timestamp, code, entry);
    ObjectHeaderPart(out, TextFileHeader(is64Bit, timestamp, n), TextSectionHeader(n), code[..n],
                     [EntrySymbol(entry)], STRING_TABLE_HEADER, []);
    ObjectSectionPart(out, TextFileHeader(is64Bit, timestamp, n), TextSectionHeader(n), code[..n],
                      [EntrySymbol(entry)], STRING_TABLE_HEADER, []);
    LegacyCodeBytes(is64Bit, timestamp, code, entry);
    CoffHeaderPart(is64Bit, timestamp, code, globals);
    CoffSectionPart(is64Bit, timestamp, code, globals);
    CoffCodePart(is64Bit, timestamp, code, globals);
  }
}
