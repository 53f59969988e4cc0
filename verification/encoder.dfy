/** The instruction encoder (ASMForge/emitters/ToMemory.cpp): instructions to
    x86 machine-code bytes, subroutines to the concatenation of their
    instructions' bytes, and a module to the concatenation of its
    subroutines' bytes in insertion order. */
module Encoder {
  import opened Wrappers
  import opened Bytes
  import opened Builder

  /** The REX.W prefix selecting 64-bit operand size. */
  const REX_W: byte := 0x48

  /** The prefix a 64-bit instruction starts with. */
  function Prefix(is64: bool): seq<byte> {
    if is64 then [REX_W] else []
  }

  /** The number of immediate bytes: 8 for a 64-bit instruction, else 4. */
  function ImmSize(is64: bool): nat {
    if is64 then 8 else 4
  }

  /** `Emit(buf, imm, _64)`: the immediate, little-endian, cut to its width. */
  function Immediate(imm: u64, is64: bool): (r: seq<byte>)
    ensures |r| == ImmSize(is64)
  {
    LittleEndian(imm, ImmSize(is64))
  }

  /** Reading the emitted immediate back little-endian gives the operand
      itself for 8 bytes and the operand modulo 2^32 for 4 bytes. */
  lemma {:induction false} ImmediateRoundTrip(imm: u64, is64: bool)
    ensures LeValue(Immediate(imm, is64)) == if is64 then imm else imm % U32_LIMIT
  {
    LittleEndianRoundTrip(imm, ImmSize(is64));
    U32Pow();
    U64Pow();
    if is64 {
      ModUnique(imm, U64_LIMIT, 0, imm);
    }
  }

  /** `static_cast<uint8_t>((reg << 3) | rm)` for 64-bit operands: keeping the
      low byte of the OR is the same as OR-ing the operands' low bytes. */
  function RegFields(reg: u64, rm: u64): byte {
    (Low8(reg) << 3) | Low8(rm)
  }

  /** A ModRM byte with the register-direct mode bits (`0x3 << 6`) set. */
  function DirectModRM(reg: u64, rm: u64): byte {
    0xC0 | RegFields(reg, rm)
  }

  /** The three fields of a ModRM byte, as a disassembler reads them. */
  function ModField(m: byte): nat {
    (m >> 6) as nat
  }

  function RegField(m: byte): nat {
    ((m >> 3) & 7) as nat
  }

  function RmField(m: byte): nat {
    (m & 7) as nat
  }

  /** The ModRM fields of `mode | (reg << 3) | rm` for 3-bit register
      numbers, as bit-vector facts. */
  lemma {:induction false} ModRMBits(mode: byte, reg: byte, rm: byte)
    requires mode == 0 || mode == 0xC0
    requires reg < 8 && rm < 8
    ensures (mode | ((reg << 3) | rm)) >> 6 == mode >> 6
    ensures ((mode | ((reg << 3) | rm)) >> 3) & 7 == reg
    ensures (mode | ((reg << 3) | rm)) & 7 == rm
  {
  }

  /** A register index below 8 keeps its value through `Low8`. */
  lemma {:induction false} SmallLow8(v: u64)
    requires v < 8
    ensures Low8(v) < 8 && Low8(v) as nat == v
  {
    Low8Value(v);
  }

  /** For register indices below 8 the register-direct ModRM byte keeps
      both indices in their own fields. */
  lemma {:induction false} DirectModRMDecode(reg: u64, rm: u64)
    requires reg < 8 && rm < 8
    ensures ModField(DirectModRM(reg, rm)) == 3
    ensures RegField(DirectModRM(reg, rm)) == reg
    ensures RmField(DirectModRM(reg, rm)) == rm
  {
    SmallLow8(reg);
    SmallLow8(rm);
    ModRMBits(0xC0, Low8(reg), Low8(rm));
  }

  /** The same for the ModRM byte without mode bits used by the RM shape. */
  lemma {:induction false} RegFieldsDecode(reg: u64, rm: u64)
    requires reg < 8 && rm < 8
    ensures ModField(RegFields(reg, rm)) == 0
    ensures RegField(RegFields(reg, rm)) == reg
    ensures RmField(RegFields(reg, rm)) == rm
  {
    SmallLow8(reg);
    SmallLow8(rm);
    ModRMBits(0, Low8(reg), Low8(rm));
    assert RegFields(reg, rm) == 0 | ((Low8(reg) << 3) | Low8(rm));
  }

  /** The opcode/shape pairs the encoder has a case for; every other pair
      reaches a failed assertion. */
  predicate Supported(instr: Instruction) {
    match instr.op
    case MOV => instr.shape == RR || instr.shape == RM || instr.shape == RI
    case ADD => instr.shape == RI || instr.shape == RR
    case PUSH => instr.shape == R
    case POP => instr.shape == R
    case _ => true
  }

  /** The opcodes with a case of their own in the encoder's dispatch. */
  predicate HasOperands(op: OpCode) {
    op == MOV || op == ADD || op == PUSH || op == POP
  }

  /** What the dispatch emits after the optional REX.W for an opcode with
      operands: the opcode byte (with the register folded in for MOV-immediate,
      PUSH and POP), a ModRM byte where the shape has one, and the immediate
      for the RI shape. */
  function OperandForm(instr: Instruction): (r: Result<seq<byte>, Error>)
    requires HasOperands(instr.op)
  {
    match instr.op
    case MOV =>
      (match instr.shape
       case RR => Success([0x89, DirectModRM(instr.b, instr.a)])
       case RM => Success([0x8B, RegFields(instr.a, instr.b)])
       case RI => Success([0xB8 | Low8(instr.a % 8)] + Immediate(instr.b, instr.is64))
       case _ => Failure(UnsupportedInstructionType))
    case ADD =>
      (match instr.shape
       case RI => Success(AddRegImmAsWritten(instr.a, instr.b, instr.is64))
       case RR => Success([0x01, DirectModRM(instr.b, instr.a)])
       case _ => Failure(UnsupportedInstructionType))
    case PUSH =>
      if instr.shape == R then Success([0x50 + Low8(instr.a)])
      else Failure(UnsupportedInstructionType)
    case POP =>
      if instr.shape == R then Success([0x58 + Low8(instr.a)])
      else Failure(UnsupportedInstructionType)
  }

  /** The bytes one instruction contributes to its subroutine's buffer. A
      64-bit instruction first gets REX.W; an opcode without a case of its own
      (SUB, HLT, RET) takes that byte back and emits its enumerator value. */
  function EncodeInstruction(instr: Instruction): (r: Result<seq<byte>, Error>)
    ensures r.Failure? <==> !Supported(instr)
    ensures r.Failure? ==> r.error == UnsupportedInstructionType
    ensures r.Success? ==> |r.value| > 0
  {
    if HasOperands(instr.op) then
      var form :- OperandForm(instr);
      Success(Prefix(instr.is64) + form)
    else
      Success([instr.op.Value()])
  }

  /** Opcodes without a case of their own, SUB included, encode as exactly
      their enumerator value, never with REX.W, whatever the width flag,
      shape or operands. */
  lemma {:induction false} BareOpcodeEncoding(instr: Instruction)
    requires instr.op == SUB || instr.op == HLT || instr.op == RET
    ensures EncodeInstruction(instr) == Success([instr.op.Value()])
    ensures instr.op == RET ==> EncodeInstruction(instr) == Success([0xC3])
    ensures instr.op == HLT ==> EncodeInstruction(instr) == Success([0xF4])
    ensures EncodeInstruction(instr).value[0] != REX_W
  {
  }

  /** MOV, ADD, PUSH and POP start with REX.W exactly when the instruction
      is 64-bit. */
  lemma {:induction false} OperandOpcodePrefix(instr: Instruction)
    requires instr.op == MOV || instr.op == ADD || instr.op == PUSH || instr.op == POP
    requires Supported(instr)
    requires (instr.op == PUSH || instr.op == POP) ==> instr.a < 8
    ensures EncodeInstruction(instr).value[0] == REX_W <==> instr.is64
  {
    if instr.op == PUSH || instr.op == POP {
      if !instr.is64 {
        var opcode := EncodeInstruction(instr).value[0];
        Low8Value(instr.a);
        assert opcode == (if instr.op == PUSH then 0x50 else 0x58) + Low8(instr.a);
      }
    }
  }

  /** MOV register-register: opcode 0x89, then a register-direct ModRM whose
      reg field is B and whose r/m field is A. */
  lemma {:induction false} MovRegRegEncoding(instr: Instruction)
    requires instr.op == MOV && instr.shape == RR && instr.a < 8 && instr.b < 8
    ensures var bytes := EncodeInstruction(instr).value;
            var body := bytes[|Prefix(instr.is64)|..];
            && |body| == 2 && body[0] == 0x89
            && ModField(body[1]) == 3 && RegField(body[1]) == instr.b && RmField(body[1]) == instr.a
  {
    DirectModRMDecode(instr.b, instr.a);
  }

  /** MOV register-immediate: `0xB8 | (A & 7)`, then B in 8 bytes for a
      64-bit instruction (10 bytes in all) or in 4 bytes (5 bytes in all). */
  lemma {:induction false} MovRegImmEncoding(instr: Instruction)
    requires instr.op == MOV && instr.shape == RI
    ensures var bytes := EncodeInstruction(instr).value;
            var p := |Prefix(instr.is64)|;
            && |bytes| == (if instr.is64 then 10 else 5)
            && (bytes[p] as nat) == 0xB8 + instr.a % 8
            && LeValue(bytes[p + 1..]) == if instr.is64 then instr.b else instr.b % U32_LIMIT
  {
    var bytes := EncodeInstruction(instr).value;
    var p := |Prefix(instr.is64)|;
    var opcode := 0xB8 | Low8(instr.a % 8);
    assert bytes == Prefix(instr.is64) + [opcode] + Immediate(instr.b, instr.is64);
    assert bytes[p] == opcode;
    assert bytes[p + 1..] == Immediate(instr.b, instr.is64);
    ImmediateRoundTrip(instr.b, instr.is64);
    FoldRegister(0xB8, instr.a % 8);
  }

  /** OR-ing a register index below 8 into an opcode whose low three bits
      are clear adds it. */
  lemma {:induction false} FoldRegister(base: byte, reg: nat)
    requires base & 7 == 0 && reg < 8
    ensures (base | Low8(reg)) as nat == base as nat + reg
  {
    Low8Value(reg);
  }

  /** ADD register-immediate as the library writes it: 0x81, then
      `0xC0 | (A << 3)`, which puts the register into the ModRM reg field,
      where the 0x81 opcode expects the number of the operation, and leaves
      the r/m field, which names the destination, at 0; then the immediate. */
  function AddRegImmAsWritten(reg: u64, imm: u64, is64: bool): (r: seq<byte>)
    ensures |r| == 2 + ImmSize(is64)
  {
    [0x81, DirectModRM(reg, 0)] + Immediate(imm, is64)
  }

  /** ADD register-immediate in the `81 /0` form the x86 encoding defines:
      the operation number 0 (ADD) in the reg field and the register in the
      r/m field. */
  function AddRegImmCorrected(reg: u64, imm: u64, is64: bool): (r: seq<byte>)
    ensures |r| == 2 + ImmSize(is64)
  {
    [0x81, DirectModRM(0, reg)] + Immediate(imm, is64)
  }

  /** The encoder with the ADD register-immediate ModRM byte corrected;
      every other instruction is encoded as the library encodes it. */
  function CorrectedEncodeInstruction(instr: Instruction): (r: Result<seq<byte>, Error>)
    ensures r.Failure? <==> !Supported(instr)
    ensures r.Failure? ==> r.error == UnsupportedInstructionType
  {
    if instr.op == ADD && instr.shape == RI then
      Success(Prefix(instr.is64) + AddRegImmCorrected(instr.a, instr.b, instr.is64))
    else
      EncodeInstruction(instr)
  }

  /** ADD register-immediate as written: 0x81, then a register-direct ModRM
      whose reg field holds A and whose r/m field holds 0, then the
      immediate. */
  lemma {:induction false} AddRegImmEncoding(instr: Instruction)
    requires instr.op == ADD && instr.shape == RI && instr.a < 8
    ensures var bytes := EncodeInstruction(instr).value;
            var p := |Prefix(instr.is64)|;
            && |bytes| == p + 2 + ImmSize(instr.is64)
            && bytes[p] == 0x81
            && ModField(bytes[p + 1]) == 3 && RegField(bytes[p + 1]) == instr.a && RmField(bytes[p + 1]) == 0
            && LeValue(bytes[p + 2..]) == if instr.is64 then instr.b else instr.b % U32_LIMIT
  {
    var bytes := EncodeInstruction(instr).value;
    var p := |Prefix(instr.is64)|;
    assert bytes[p + 2..] == Immediate(instr.b, instr.is64);
    ImmediateRoundTrip(instr.b, instr.is64);
    DirectModRMDecode(instr.a, 0);
  }

  /** Corrected ADD register-immediate: 0x81, a register-direct ModRM whose
      reg field holds the operation number 0 (ADD in the 0x81 group) and
      whose r/m field holds A, then the immediate. */
  lemma {:induction false} CorrectedAddRegImmEncoding(instr: Instruction)
    requires instr.op == ADD && instr.shape == RI && instr.a < 8
    ensures var bytes := CorrectedEncodeInstruction(instr).value;
            var p := |Prefix(instr.is64)|;
            && |bytes| == p + 2 + ImmSize(instr.is64)
            && bytes[p] == 0x81
            && ModField(bytes[p + 1]) == 3 && RegField(bytes[p + 1]) == 0 && RmField(bytes[p + 1]) == instr.a
            && LeValue(bytes[p + 2..]) == if instr.is64 then instr.b else instr.b % U32_LIMIT
  {
    var bytes := CorrectedEncodeInstruction(instr).value;
    var p := |Prefix(instr.is64)|;
    assert bytes[p + 2..] == Immediate(instr.b, instr.is64);
    ImmediateRoundTrip(instr.b, instr.is64);
    DirectModRMDecode(0, instr.a);
  }

  /** The two encoders write every instruction but ADD register-immediate
      alike. */
  lemma {:induction false} EncodersAgree(instr: Instruction)
    requires !(instr.op == ADD && instr.shape == RI)
    ensures CorrectedEncodeInstruction(instr) == EncodeInstruction(instr)
  {
  }

  /** For every register but AX the bytes written select another operation
      of the 0x81 group (1 is OR, 2 is ADC, …) on AX, not ADD on the
      register: the library's bytes are the corrected ones exactly for AX. */
  lemma {:induction false} AddRegImmAsWrittenMisencodes(reg: u64, imm: u64, is64: bool)
    requires reg < 8
    ensures var written := AddRegImmAsWritten(reg, imm, is64);
            && ModField(written[1]) == 3
            && RegField(written[1]) == reg
            && RmField(written[1]) == 0
    ensures var instr := Instruction(ADD, reg, imm, is64, RI);
            EncodeInstruction(instr) == CorrectedEncodeInstruction(instr) <==> reg == 0
  {
    DirectModRMDecode(reg, 0);
    DirectModRMDecode(0, reg);
    var instr := Instruction(ADD, reg, imm, is64, RI);
    var written := EncodeInstruction(instr).value;
    var corrected := CorrectedEncodeInstruction(instr).value;
    assert written == Prefix(is64) + AddRegImmAsWritten(reg, imm, is64);
    var p := |Prefix(is64)|;
    if written == corrected {
      assert written[p + 1] == corrected[p + 1];
      assert RegField(DirectModRM(reg, 0)) == RegField(DirectModRM(0, reg));
    }
    if reg == 0 {
      assert DirectModRM(reg, 0) == DirectModRM(0, reg);
    }
  }

  /** ADD CX, 5 as written: `81 C8 05 00 00 00`, which an x86 processor
      executes as OR EAX, 5; corrected: `81 C1 05 00 00 00`. */
  lemma {:induction false} AddCxAsWritten()
    ensures EncodeInstruction(Instruction(ADD, 1, 5, false, RI)).value == [0x81, 0xC8, 0x05, 0x00, 0x00, 0x00]
    ensures CorrectedEncodeInstruction(Instruction(ADD, 1, 5, false, RI)).value == [0x81, 0xC1, 0x05, 0x00, 0x00, 0x00]
  {
    AddCxBytes();
    assert AddRegImmAsWritten(1, 5, false) == [0x81, 0xC8] + [0x05, 0x00, 0x00, 0x00];
    assert AddRegImmCorrected(1, 5, false) == [0x81, 0xC1] + [0x05, 0x00, 0x00, 0x00];
    var add := Instruction(ADD, 1, 5, false, RI);
    assert OperandForm(add) == Success(AddRegImmAsWritten(1, 5, false));
    assert EncodeInstruction(add) == Success(Prefix(false) + AddRegImmAsWritten(1, 5, false));
    assert CorrectedEncodeInstruction(add) == Success(Prefix(false) + AddRegImmCorrected(1, 5, false));
    assert Prefix(false) == [];
    assert AddRegImmAsWritten(1, 5, false) == [0x81, 0xC8, 0x05, 0x00, 0x00, 0x00];
    assert AddRegImmCorrected(1, 5, false) == [0x81, 0xC1, 0x05, 0x00, 0x00, 0x00];
  }

  lemma {:induction false} AddCxBytes()
    ensures Immediate(5, false) == [0x05, 0x00, 0x00, 0x00]
    ensures DirectModRM(1, 0) == 0xC8 && DirectModRM(0, 1) == 0xC1
  {
    assert Low8(1) == 1 && Low8(0) == 0 && Low8(5) == 5;
    assert LittleEndian(0, 3) == [0x00, 0x00, 0x00];
  }

  /** ADD register-register: 0x01, then a register-direct ModRM with B in its
      reg field and A in its r/m field. */
  lemma {:induction false} AddRegRegEncoding(instr: Instruction)
    requires instr.op == ADD && instr.shape == RR && instr.a < 8 && instr.b < 8
    ensures var bytes := EncodeInstruction(instr).value;
            var body := bytes[|Prefix(instr.is64)|..];
            && |body| == 2 && body[0] == 0x01
            && ModField(body[1]) == 3 && RegField(body[1]) == instr.b && RmField(body[1]) == instr.a
  {
    DirectModRMDecode(instr.b, instr.a);
  }

  /** PUSH and POP fold the register into the opcode: 0x50 + A and 0x58 + A. */
  lemma {:induction false} PushPopEncoding(instr: Instruction)
    requires (instr.op == PUSH || instr.op == POP) && instr.shape == R && instr.a < 8
    ensures var bytes := EncodeInstruction(instr).value;
            var body := bytes[|Prefix(instr.is64)|..];
            && |body| == 1
            && body[0] as nat == (if instr.op == PUSH then 0x50 else 0x58) + instr.a
  {
    var base: byte := if instr.op == PUSH then 0x50 else 0x58;
    var bytes := EncodeInstruction(instr).value;
    assert bytes == Prefix(instr.is64) + [base + Low8(instr.a)];
    SmallLow8(instr.a);
    FoldedOpcode(base, Low8(instr.a));
    FoldRegister(base, instr.a);
  }

  /** An opcode with a register folded into its low three bits, as
      bit-vector facts: the opcode's high five bits and the register can be
      read back, and adding the register is the same as OR-ing it in. */
  lemma {:induction false} FoldedOpcode(base: byte, r: byte)
    requires base & 7 == 0 && r < 8
    ensures (base | r) & 0xF8 == base && (base | r) & 7 == r
    ensures base + r == base | r
  {
  }

  /** Concatenates the parts in order, or yields the first failing part. */
  function ConcatResults(parts: seq<Result<seq<byte>, Error>>): (r: Result<seq<byte>, Error>)
    ensures r.Success? <==> AllSucceed(parts)
    ensures r.Success? ==> r.value == Flatten(Values(parts))
  {
    if |parts| == 0 then Success([])
    else
      var first :- parts[0];
      var rest :- ConcatResults(parts[1..]);
      assert Values(parts) == [first] + Values(parts[1..]);
      Success(first + rest)
  }

  predicate AllSucceed(parts: seq<Result<seq<byte>, Error>>) {
    forall i | 0 <= i < |parts| :: parts[i].Success?
  }

  function Values(parts: seq<Result<seq<byte>, Error>>): (vs: seq<seq<byte>>)
    requires AllSucceed(parts)
    ensures |vs| == |parts| && forall i | 0 <= i < |parts| :: vs[i] == parts[i].value
  {
    seq(|parts|, i requires 0 <= i < |parts| => parts[i].value)
  }

  /** When every part before `k` succeeds and part `k` fails, the
      concatenation fails with part `k`'s error. */
  lemma {:induction false} ConcatResultsFirstFailure(parts: seq<Result<seq<byte>, Error>>, k: nat)
    requires k < |parts| && AllSucceed(parts[..k]) && parts[k].Failure?
    ensures ConcatResults(parts) == Failure(parts[k].error)
  {
    if k > 0 {
      assert parts[0] == parts[..k][0];
      assert parts[1..][..k - 1] == parts[..k][1..];
      ConcatResultsFirstFailure(parts[1..], k - 1);
    }
  }

  /** Extending a successful concatenation by one successful part. */
  lemma {:induction false} ConcatResultsSnoc(parts: seq<Result<seq<byte>, Error>>, last: seq<byte>)
    requires AllSucceed(parts)
    ensures ConcatResults(parts + [Success(last)]) == Success(ConcatResults(parts).value + last)
  {
    var ext := parts + [Success(last)];
    assert Values(ext) == Values(parts) + [last];
    FlattenSnoc(Values(parts), last);
  }

  /** The per-instruction encodings of a code sequence. */
  function Encodings(code: seq<Instruction>): (parts: seq<Result<seq<byte>, Error>>)
    ensures |parts| == |code|
    ensures forall i | 0 <= i < |code| :: parts[i] == EncodeInstruction(code[i])
  {
    seq(|code|, i requires 0 <= i < |code| => EncodeInstruction(code[i]))
  }

  /** A subroutine's bytes: its instructions' encodings in order. */
  function EncodeCode(code: seq<Instruction>): Result<seq<byte>, Error> {
    ConcatResults(Encodings(code))
  }

  /** The per-subroutine encodings of a subroutine list. */
  function RoutineEncodings(routines: seq<SubRoutine>): (parts: seq<Result<seq<byte>, Error>>)
    ensures |parts| == |routines|
    ensures forall i | 0 <= i < |routines| :: parts[i] == EncodeCode(routines[i].code)
  {
    seq(|routines|, i requires 0 <= i < |routines| => EncodeCode(routines[i].code))
  }

  /** The subroutines' bytes concatenated in list order. */
  function EncodeRoutines(routines: seq<SubRoutine>): Result<seq<byte>, Error> {
    ConcatResults(RoutineEncodings(routines))
  }

  /** `ModuleBuilder::EmitToMemory`. */
  function EncodeModule(m: Module): Result<seq<byte>, Error> {
    EncodeRoutines(m.subRoutines)
  }

  /** A module without subroutines encodes to no bytes. */
  lemma {:induction false} EmptyModuleEncoding(m: Module)
    requires |m.subRoutines| == 0
    ensures EncodeModule(m) == Success([])
  {
  }

  /** The code prefix of length k, extended by the next instruction. */
  lemma {:induction false} EncodingsSnoc(code: seq<Instruction>, k: nat)
    requires k < |code|
    ensures Encodings(code[..k + 1]) == Encodings(code[..k]) + [EncodeInstruction(code[k])]
    ensures Encodings(code[..k]) == Encodings(code)[..k]
  {
  }

  lemma {:induction false} RoutineEncodingsSnoc(routines: seq<SubRoutine>, k: nat)
    requires k < |routines|
    ensures RoutineEncodings(routines[..k + 1]) == RoutineEncodings(routines[..k]) + [EncodeCode(routines[k].code)]
    ensures RoutineEncodings(routines[..k]) == RoutineEncodings(routines)[..k]
  {
  }

  /** One iteration of the subroutine loop: pushes REX.W for a 64-bit
      instruction, dispatches on the opcode and shape, and for an opcode
      without operands pops REX.W off the buffer again. */
  method EmitInstruction(buf: seq<byte>, instr: Instruction) returns (res: Result<seq<byte>, Error>)
    ensures EncodeInstruction(instr).Success? ==> res == Success(buf + EncodeInstruction(instr).value)
    ensures EncodeInstruction(instr).Failure? ==> res == Failure(UnsupportedInstructionType)
  {
    var out := buf;
    if instr.is64 {
      out := out + [REX_W];
    }
    if HasOperands(instr.op) {
      var form := OperandForm(instr);
      if form.Failure? {
        return Failure(UnsupportedInstructionType);
      }
      out := out + form.value;
      assert out == buf + (Prefix(instr.is64) + form.value);
      assert EncodeInstruction(instr) == Success(Prefix(instr.is64) + form.value);
    } else {
      if instr.is64 {
        assert out[..|out| - 1] == buf;
        out := out[..|out| - 1];
      }
      out := out + [instr.op.Value()];
      assert EncodeInstruction(instr) == Success([instr.op.Value()]);
    }
    res := Success(out);
  }

  /** `SubRoutineBuilder::EmitToMemory`: one growing buffer, stopping at the
      first unsupported instruction. It produces exactly the in-order
      concatenation of the instructions' encodings. */
  method EmitSubRoutine(routine: SubRoutine) returns (res: Result<seq<byte>, Error>)
    ensures res == EncodeCode(routine.code)
  {
    var code := routine.code;
    var buf: seq<byte> := [];
    var k := 0;
    while k < |code|
      invariant 0 <= k <= |code|
      invariant AllSucceed(Encodings(code[..k]))
      invariant EncodeCode(code[..k]) == Success(buf)
    {
      var next := EmitInstruction(buf, code[k]);
      EncodingsSnoc(code, k);
      if next.Failure? {
        ConcatResultsFirstFailure(Encodings(code), k);
        return next;
      }
      ConcatResultsSnoc(Encodings(code[..k]), EncodeInstruction(code[k]).value);
      buf := next.value;
      k := k + 1;
    }
    assert code[..k] == code;
    res := Success(buf);
  }

  /** `ModuleBuilder::EmitToMemory`, subroutine by subroutine. */
  method EmitModule(m: Module) returns (res: Result<seq<byte>, Error>)
    ensures res == EncodeModule(m)
  {
    var routines := m.subRoutines;
    var buf: seq<byte> := [];
    var k := 0;
    while k < |routines|
      invariant 0 <= k <= |routines|
      invariant AllSucceed(RoutineEncodings(routines[..k]))
      invariant EncodeRoutines(routines[..k]) == Success(buf)
    {
      var code := EmitSubRoutine(routines[k]);
      RoutineEncodingsSnoc(routines, k);
      if code.Failure? {
        ConcatResultsFirstFailure(RoutineEncodings(routines), k);
        return code;
      }
      ConcatResultsSnoc(RoutineEncodings(routines[..k]), code.value);
      buf := buf + code.value;
      k := k + 1;
    }
    assert routines[..k] == routines;
    res := Success(buf);
  }

  /** The demonstration program: a 32-bit module "Test" whose subroutine
      "main" holds `MOV AX, 6969` then `RET`, built through the builder. */
  function DemoModule(): Module {
    var m := NewModule("Test", false);
    var m1 := CreateSubRoutine(m, "main").value;
    var m2 := Append(m1, 0, CreateRegImm(m1, MOV, AX, 6969));
    Append(m2, 0, Create(m2, RET))
  }

  /** The demonstration module holds one subroutine, "main", with the
      32-bit `MOV AX, 6969` followed by `RET`. */
  lemma {:induction false} DemoModuleShape()
    ensures DemoModule().subRoutines
            == [SubRoutine("main", [Instruction(MOV, 0, 6969, false, RI), Instruction(RET, 0, 0, false, NONE)])]
  {
    var m1 := CreateSubRoutine(NewModule("Test", false), "main").value;
    assert m1.subRoutines == [SubRoutine("main", [])];
    var m2 := Append(m1, 0, CreateRegImm(m1, MOV, AX, 6969));
    assert m2.subRoutines[0].code == [Instruction(MOV, 0, 6969, false, RI)];
    var m := Append(m2, 0, Create(m2, RET));
    assert m.subRoutines[0].code == [Instruction(MOV, 0, 6969, false, RI), Instruction(RET, 0, 0, false, NONE)];
  }

  /** 6969 as a 32-bit immediate is `39 1B 00 00`. */
  lemma {:induction false} DemoImmediate()
    ensures Immediate(6969, false) == [0x39, 0x1B, 0x00, 0x00]
  {
    assert Low8(6969) == 0x39 && Low8(27) == 0x1B && Low8(0) == 0;
    assert LittleEndian(0, 2) == [0x00, 0x00];
    assert LittleEndian(27, 3) == [0x1B, 0x00, 0x00];
  }

  /** The 32-bit `MOV AX, 6969` encodes to `B8 39 1B 00 00`. */
  lemma {:induction false} DemoMovEncoding()
    ensures EncodeInstruction(Instruction(MOV, 0, 6969, false, RI)) == Success([0xB8, 0x39, 0x1B, 0x00, 0x00])
  {
    var mov := Instruction(MOV, 0, 6969, false, RI);
    DemoImmediate();
    assert 0xB8 | Low8(0 % 8) == 0xB8;
    assert OperandForm(mov) == Success([0xB8] + Immediate(6969, false));
    assert EncodeInstruction(mov) == Success(Prefix(false) + OperandForm(mov).value);
    assert Prefix(false) + OperandForm(mov).value == [0xB8, 0x39, 0x1B, 0x00, 0x00];
  }

  /** The demonstration program encodes to `B8 39 1B 00 00 C3`. */
  lemma {:induction false} DemoModuleEncoding()
    ensures EncodeModule(DemoModule()) == Success([0xB8, 0x39, 0x1B, 0x00, 0x00, 0xC3])
  {
    var mov := Instruction(MOV, 0, 6969, false, RI);
    var ret := Instruction(RET, 0, 0, false, NONE);
    var bytes: seq<byte> := [0xB8, 0x39, 0x1B, 0x00, 0x00, 0xC3];
    DemoModuleShape();
    DemoMovEncoding();
    assert EncodeInstruction(ret) == Success([0xC3]);
    assert Values(Encodings([mov, ret])) == [[0xB8, 0x39, 0x1B, 0x00, 0x00], [0xC3]];
    assert Flatten([[0xC3]]) == [0xC3];
    assert Flatten([[0xB8, 0x39, 0x1B, 0x00, 0x00], [0xC3]]) == bytes;
    assert EncodeCode([mov, ret]) == Success(bytes);
    assert RoutineEncodings(DemoModule().subRoutines) == [Success(bytes)];
    assert Values([Success(bytes)]) == [bytes];
    assert Flatten([bytes]) == bytes;
  }

  // What the builder's constructors decide about the bytes.

  /** An instruction made by `Create` takes its width from the module: it
      opens with REX.W exactly when the module is 64-bit and the opcode has
      operands (MOV, ADD, PUSH, POP); SUB, HLT and RET never carry it. */
  lemma {:induction false} CreatedWidthSelectsPrefix(owner: Module, op: OpCode, a: u64, b: u64, shape: InstrType)
    requires Supported(Create(owner, op, a, b, shape))
    requires (op == PUSH || op == POP) ==> a < 8
    ensures EncodeInstruction(Create(owner, op, a, b, shape)).value[0] == REX_W <==> owner.is64Bit && HasOperands(op)
  {
    var instr := Create(owner, op, a, b, shape);
    if HasOperands(op) {
      OperandOpcodePrefix(instr);
    } else {
      BareOpcodeEncoding(instr);
    }
  }

  /** `Create(MOV, reg, imm)` in a module of either width: the register
      folded into 0xB8, then the immediate in 8 bytes for a 64-bit module
      (10 bytes in all, REX.W first) or in 4 bytes for a 32-bit one (5 bytes
      in all), reading back as the value or as the value modulo 2^32. */
  lemma {:induction false} CreatedMovRegImm(owner: Module, reg: Reg, imm: u64)
    ensures var bytes := EncodeInstruction(CreateRegImm(owner, MOV, reg, imm)).value;
            var p := if owner.is64Bit then 1 else 0;
            && |bytes| == (if owner.is64Bit then 10 else 5)
            && (owner.is64Bit <==> bytes[0] == REX_W)
            && bytes[p] as nat == 0xB8 + reg.Index()
            && LeValue(bytes[p + 1..]) == if owner.is64Bit then imm else imm % U32_LIMIT
  {
    var instr := CreateRegImm(owner, MOV, reg, imm);
    MovRegImmEncoding(instr);
    OperandOpcodePrefix(instr);
  }

  /** `Create(MOV, x, y)` in a module of either width: REX.W exactly for a
      64-bit module, then 0x89 and a register-direct ModRM naming y as the
      source and x as the destination. */
  lemma {:induction false} CreatedMovRegReg(owner: Module, x: Reg, y: Reg)
    ensures var bytes := EncodeInstruction(CreateRegReg(owner, MOV, x, y)).value;
            var p := if owner.is64Bit then 1 else 0;
            && |bytes| == p + 2
            && (owner.is64Bit <==> bytes[0] == REX_W)
            && bytes[p] == 0x89
            && ModField(bytes[p + 1]) == 3 && RegField(bytes[p + 1]) == y.Index() && RmField(bytes[p + 1]) == x.Index()
  {
    var instr := CreateRegReg(owner, MOV, x, y);
    MovRegRegEncoding(instr);
    OperandOpcodePrefix(instr);
  }

  /** A new module of either width encodes to no bytes, and a first
      subroutine of any name can be added to it, which still encodes to no
      bytes. */
  lemma {:induction false} NewModuleEncoding(name: string, is64Bit: bool, routine: string)
    ensures EncodeModule(NewModule(name, is64Bit)) == Success([])
    ensures CreateSubRoutine(NewModule(name, is64Bit), routine).Success?
    ensures EncodeModule(CreateSubRoutine(NewModule(name, is64Bit), routine).value) == Success([])
  {
    var m := CreateSubRoutine(NewModule(name, is64Bit), routine).value;
    assert m.subRoutines == [SubRoutine(routine, [])];
    assert EncodeCode([]) == Success([]);
    assert RoutineEncodings(m.subRoutines) == [Success([])];
    assert Values([Success([])]) == [[]];
    assert Flatten([[]]) == [];
  }
}
