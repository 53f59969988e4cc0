/** A decoder for the byte forms the encoder writes: an optional REX.W, the
    opcode, the ModRM fields as x86 lays them out (mode, reg, r/m; the reg
    field of 0x81 naming the operation), and a little-endian immediate whose
    width follows REX.W as the encoder's does. It is the reference the
    encoder is checked against: decoding an encoded subroutine gives back its
    instructions, up to the information the encoding does not carry.

    It is not a full x86 decoder. On x86, `REX.W 81 /0` takes a 4-byte
    sign-extended immediate, where this decoder, like the encoder, reads 8;
    and `8B` with mode 0 and r/m 4 or 5 is followed by a SIB byte or a
    32-bit displacement, which it does not read. */
module Decoder {
  import opened Wrappers
  import opened Bytes
  import opened Builder
  import opened Encoder

  /** A decoded instruction and the number of bytes it occupied. */
  datatype Decoded = Decoded(instr: Instruction, size: nat)

  /** An immediate of 4 or 8 bytes read little-endian. */
  function ImmValue(bs: seq<byte>): (v: u64)
    requires |bs| == 4 || |bs| == 8
  {
    LeValueBound(bs);
    U32Pow();
    U64Pow();
    LeValue(bs)
  }

  /** A register index held in the low three bits of a byte. */
  function Reg3(m: byte): (r: u64)
    ensures r < 8
  {
    (m & 7) as nat
  }

  /** Decodes the instruction at the start of `bs`, if there is one. */
  function DecodeInstruction(bs: seq<byte>): (r: Option<Decoded>)
    ensures r.Some? ==> 0 < r.value.size <= |bs|
  {
    if |bs| == 0 then None
    else
      var is64 := bs[0] == REX_W;
      var p := if is64 then 1 else 0;
      if |bs| <= p then None
      else
        var opcode := bs[p];
        var rest := bs[p + 1..];
        var n := ImmSize(is64);
        if opcode == 0x89 && |rest| >= 1 && ModField(rest[0]) == 3 then
          Some(Decoded(Instruction(MOV, Reg3(rest[0]), Reg3(rest[0] >> 3), is64, RR), p + 2))
        else if opcode == 0x8B && |rest| >= 1 && ModField(rest[0]) == 0 then
          Some(Decoded(Instruction(MOV, Reg3(rest[0] >> 3), Reg3(rest[0]), is64, RM), p + 2))
        else if opcode & 0xF8 == 0xB8 && |rest| >= n then
          Some(Decoded(Instruction(MOV, Reg3(opcode), ImmValue(rest[..n]), is64, RI), p + 1 + n))
        else if opcode == 0x81 && |rest| >= 1 + n && ModField(rest[0]) == 3 && RegField(rest[0]) == 0 then
          Some(Decoded(Instruction(ADD, Reg3(rest[0]), ImmValue(rest[1..1 + n]), is64, RI), p + 2 + n))
        else if opcode == 0x01 && |rest| >= 1 && ModField(rest[0]) == 3 then
          Some(Decoded(Instruction(ADD, Reg3(rest[0]), Reg3(rest[0] >> 3), is64, RR), p + 2))
        else if opcode & 0xF8 == 0x50 then
          Some(Decoded(Instruction(PUSH, Reg3(opcode), 0, is64, R), p + 1))
        else if opcode & 0xF8 == 0x58 then
          Some(Decoded(Instruction(POP, Reg3(opcode), 0, is64, R), p + 1))
        else if !is64 && opcode == 0x03 then
          Some(Decoded(Instruction(SUB, 0, 0, false, NONE), 1))
        else if !is64 && opcode == 0xC3 then
          Some(Decoded(Instruction(RET, 0, 0, false, NONE), 1))
        else if !is64 && opcode == 0xF4 then
          Some(Decoded(Instruction(HLT, 0, 0, false, NONE), 1))
        else None
  }

  /** Decodes a whole byte string into instructions, or fails. */
  function DecodeAll(bs: seq<byte>): Option<seq<Instruction>>
    decreases |bs|
  {
    if |bs| == 0 then Some([])
    else
      var d :- DecodeInstruction(bs);
      var tail :- DecodeAll(bs[d.size..]);
      Some([d.instr] + tail)
  }

  /** Instructions whose operands fit the fields their encoding has room
      for: register indices below 8 wherever a register is encoded. */
  predicate FitsFields(instr: Instruction) {
    match instr.op
    case MOV =>
      || ((instr.shape == RR || instr.shape == RM) && instr.a < 8 && instr.b < 8)
      || (instr.shape == RI && instr.a < 8)
    case ADD =>
      || (instr.shape == RR && instr.a < 8 && instr.b < 8)
      || (instr.shape == RI && instr.a < 8)
    case PUSH => instr.shape == R && instr.a < 8
    case POP => instr.shape == R && instr.a < 8
    case _ => true
  }

  /** The instructions the library's encoder writes recoverably: those
      whose operands fit their fields, ADD register-immediate only on AX,
      the one register its ModRM byte gets right. */
  predicate Decodable(instr: Instruction) {
    FitsFields(instr) && !(instr.op == ADD && instr.shape == RI && instr.a != 0)
  }

  /** What survives encoding: an operand-less opcode loses its width flag,
      shape and operands; PUSH and POP lose operand B; a 32-bit immediate
      keeps only its low 32 bits. */
  function Canonical(instr: Instruction): Instruction {
    if !HasOperands(instr.op) then Instruction(instr.op, 0, 0, false, NONE)
    else if instr.op == PUSH || instr.op == POP then instr.(b := 0)
    else if instr.shape == RI && !instr.is64 then instr.(b := instr.b % U32_LIMIT)
    else instr
  }

  function Canonicals(code: seq<Instruction>): (r: seq<Instruction>)
    ensures |r| == |code| && forall i | 0 <= i < |code| :: r[i] == Canonical(code[i])
  {
    seq(|code|, i requires 0 <= i < |code| => Canonical(code[i]))
  }

  predicate AllDecodable(code: seq<Instruction>) {
    forall i | 0 <= i < |code| :: Decodable(code[i])
  }

  lemma {:induction false} PrefixDecode(instr: Instruction, form: seq<byte>, rest: seq<byte>)
    requires |form| > 0 && form[0] != REX_W
    ensures var bs := Prefix(instr.is64) + form + rest;
            && (bs[0] == REX_W <==> instr.is64)
            && bs[|Prefix(instr.is64)|..] == form + rest
  {
  }

  lemma {:induction false} ImmediateDecode(imm: u64, is64: bool)
    ensures ImmValue(Immediate(imm, is64)) == if is64 then imm else imm % U32_LIMIT
  {
    ImmediateRoundTrip(imm, is64);
  }

  /** `Reg3` of a byte and of the byte shifted right by three read the r/m
      and reg fields of a ModRM byte. */
  lemma {:induction false} Reg3Field(m: byte)
    ensures Reg3(m) == RmField(m) && Reg3(m >> 3) == RegField(m)
  {
  }

  lemma {:induction false} DecodeMov(instr: Instruction, rest: seq<byte>)
    requires instr.op == MOV && Decodable(instr)
    ensures EncodeInstruction(instr).Success?
    ensures DecodeInstruction(EncodeInstruction(instr).value + rest)
            == Some(Decoded(Canonical(instr), |EncodeInstruction(instr).value|))
  {
    var form := OperandForm(instr).value;
    assert EncodeInstruction(instr).value + rest == Prefix(instr.is64) + (form + rest);
    match instr.shape {
      case RR => DecodeMovRegReg(instr, form + rest);
      case RM => DecodeMovRegMem(instr, form + rest);
      case RI => DecodeMovRegImm(instr, form + rest);
    }
  }

  lemma {:induction false} DecodeMovRegReg(instr: Instruction, body: seq<byte>)
    requires instr.op == MOV && instr.shape == RR && instr.a < 8 && instr.b < 8
    requires |body| >= 2 && body[..2] == OperandForm(instr).value
    ensures DecodeInstruction(Prefix(instr.is64) + body) == Some(Decoded(Canonical(instr), |Prefix(instr.is64)| + 2))
  {
    var bs := Prefix(instr.is64) + body;
    var p := |Prefix(instr.is64)|;
    assert bs[p] == 0x89 && bs[p + 1..][0] == DirectModRM(instr.b, instr.a);
    DirectModRMDecode(instr.b, instr.a);
    Reg3Field(DirectModRM(instr.b, instr.a));
  }

  lemma {:induction false} DecodeMovRegMem(instr: Instruction, body: seq<byte>)
    requires instr.op == MOV && instr.shape == RM && instr.a < 8 && instr.b < 8
    requires |body| >= 2 && body[..2] == OperandForm(instr).value
    ensures DecodeInstruction(Prefix(instr.is64) + body) == Some(Decoded(Canonical(instr), |Prefix(instr.is64)| + 2))
  {
    var bs := Prefix(instr.is64) + body;
    var p := |Prefix(instr.is64)|;
    assert bs[p] == 0x8B && bs[p + 1..][0] == RegFields(instr.a, instr.b);
    RegFieldsDecode(instr.a, instr.b);
    Reg3Field(RegFields(instr.a, instr.b));
  }

  lemma {:induction false} DecodeMovRegImm(instr: Instruction, body: seq<byte>)
    requires instr.op == MOV && instr.shape == RI && instr.a < 8
    requires |body| >= 1 + ImmSize(instr.is64) && body[..1 + ImmSize(instr.is64)] == OperandForm(instr).value
    ensures DecodeInstruction(Prefix(instr.is64) + body)
            == Some(Decoded(Canonical(instr), |Prefix(instr.is64)| + 1 + ImmSize(instr.is64)))
  {
    var bs := Prefix(instr.is64) + body;
    var p := |Prefix(instr.is64)|;
    var n := ImmSize(instr.is64);
    var opcode := 0xB8 | Low8(instr.a % 8);
    assert bs[p] == opcode;
    assert instr.a % 8 == instr.a;
    SmallLow8(instr.a);
    FoldedOpcode(0xB8, Low8(instr.a));
    assert bs[p + 1..][..n] == Immediate(instr.b, instr.is64);
    ImmediateDecode(instr.b, instr.is64);
  }

  lemma {:induction false} DecodeAdd(instr: Instruction, rest: seq<byte>)
    requires instr.op == ADD && Decodable(instr)
    ensures EncodeInstruction(instr).Success?
    ensures DecodeInstruction(EncodeInstruction(instr).value + rest)
            == Some(Decoded(Canonical(instr), |EncodeInstruction(instr).value|))
  {
    var form := OperandForm(instr).value;
    assert EncodeInstruction(instr).value + rest == Prefix(instr.is64) + (form + rest);
    match instr.shape {
      case RR => DecodeAddRegReg(instr, form + rest);
      case RI =>
        assert form == AddRegImmCorrected(instr.a, instr.b, instr.is64);
        DecodeAddRegImm(instr, form + rest);
    }
  }

  lemma {:induction false} DecodeAddRegReg(instr: Instruction, body: seq<byte>)
    requires instr.op == ADD && instr.shape == RR && instr.a < 8 && instr.b < 8
    requires |body| >= 2 && body[..2] == OperandForm(instr).value
    ensures DecodeInstruction(Prefix(instr.is64) + body) == Some(Decoded(Canonical(instr), |Prefix(instr.is64)| + 2))
  {
    var bs := Prefix(instr.is64) + body;
    var p := |Prefix(instr.is64)|;
    assert bs[p] == 0x01 && bs[p + 1..][0] == DirectModRM(instr.b, instr.a);
    DirectModRMDecode(instr.b, instr.a);
    Reg3Field(DirectModRM(instr.b, instr.a));
  }

  lemma {:induction false} DecodeAddRegImm(instr: Instruction, body: seq<byte>)
    requires instr.op == ADD && instr.shape == RI && instr.a < 8
    requires |body| >= 2 + ImmSize(instr.is64)
    requires body[..2 + ImmSize(instr.is64)] == AddRegImmCorrected(instr.a, instr.b, instr.is64)
    ensures DecodeInstruction(Prefix(instr.is64) + body)
            == Some(Decoded(Canonical(instr), |Prefix(instr.is64)| + 2 + ImmSize(instr.is64)))
  {
    var bs := Prefix(instr.is64) + body;
    var p := |Prefix(instr.is64)|;
    var n := ImmSize(instr.is64);
    var form := AddRegImmCorrected(instr.a, instr.b, instr.is64);
    assert form[2..] == Immediate(instr.b, instr.is64);
    assert body[0] == 0x81 && body[1] == DirectModRM(0, instr.a) by {
      assert body[0] == body[..2 + n][0] && body[1] == body[..2 + n][1];
    }
    assert body[2..2 + n] == form[2..] by {
      assert body[..2 + n][2..] == body[2..2 + n];
    }
    var rest := bs[p + 1..];
    assert bs[p] == 0x81 && rest == body[1..];
    assert rest[0] == DirectModRM(0, instr.a) && rest[1..1 + n] == body[2..2 + n];
    DirectModRMDecode(0, instr.a);
    Reg3Field(DirectModRM(0, instr.a));
    ImmediateDecode(instr.b, instr.is64);
  }

  /** The library's own ADD register-immediate bytes for any register but
      AX are not an ADD of that register: the decoder rejects them. */
  lemma {:induction false} AddRegImmAsWrittenRejected(reg: u64, imm: u64, is64: bool, rest: seq<byte>)
    requires 0 < reg < 8
    ensures DecodeInstruction(EncodeInstruction(Instruction(ADD, reg, imm, is64, RI)).value + rest) == None
  {
    assert EncodeInstruction(Instruction(ADD, reg, imm, is64, RI)).value == Prefix(is64) + AddRegImmAsWritten(reg, imm, is64);
    var bs := Prefix(is64) + AddRegImmAsWritten(reg, imm, is64) + rest;
    var p := |Prefix(is64)|;
    assert bs[0] == REX_W <==> is64;
    assert bs[p] == 0x81 && bs[p + 1] == DirectModRM(reg, 0);
    assert bs[p + 1..][0] == DirectModRM(reg, 0);
    AddRegImmAsWrittenMisencodes(reg, imm, is64);
    assert (0x81 as byte) & 0xF8 == 0x80;
  }

  lemma {:induction false} DecodePushPop(instr: Instruction, rest: seq<byte>)
    requires (instr.op == PUSH || instr.op == POP) && Decodable(instr)
    ensures EncodeInstruction(instr).Success?
    ensures DecodeInstruction(EncodeInstruction(instr).value + rest)
            == Some(Decoded(Canonical(instr), |EncodeInstruction(instr).value|))
  {
    var form := OperandForm(instr).value;
    var bs := EncodeInstruction(instr).value + rest;
    assert bs == Prefix(instr.is64) + (form + rest);
    var p := |Prefix(instr.is64)|;
    var opcode := form[0];
    assert bs[p] == opcode;
    SmallLow8(instr.a);
    FoldedOpcode(if instr.op == PUSH then 0x50 else 0x58, Low8(instr.a));
  }

  /** Decoding the encoding of one instruction, whatever follows it,
      recovers the instruction up to what the encoding does not carry, and
      consumes exactly its bytes. */
  lemma {:induction false} DecodeEncodedInstruction(instr: Instruction, rest: seq<byte>)
    requires Decodable(instr)
    ensures EncodeInstruction(instr).Success?
    ensures DecodeInstruction(EncodeInstruction(instr).value + rest)
            == Some(Decoded(Canonical(instr), |EncodeInstruction(instr).value|))
  {
    match instr.op {
      case MOV => DecodeMov(instr, rest);
      case ADD => DecodeAdd(instr, rest);
      case PUSH => DecodePushPop(instr, rest);
      case POP => DecodePushPop(instr, rest);
      case _ =>
        BareOpcodeEncoding(instr);
    }
  }

  /** The corrected encoder round-trips every instruction whose operands
      fit their fields, ADD register-immediate on any register included. */
  lemma {:induction false} DecodeCorrectedInstruction(instr: Instruction, rest: seq<byte>)
    requires FitsFields(instr)
    ensures CorrectedEncodeInstruction(instr).Success?
    ensures DecodeInstruction(CorrectedEncodeInstruction(instr).value + rest)
            == Some(Decoded(Canonical(instr), |CorrectedEncodeInstruction(instr).value|))
  {
    if instr.op == ADD && instr.shape == RI {
      var form := AddRegImmCorrected(instr.a, instr.b, instr.is64);
      assert CorrectedEncodeInstruction(instr).value + rest == Prefix(instr.is64) + (form + rest);
      DecodeAddRegImm(instr, form + rest);
    } else {
      EncodersAgree(instr);
      DecodeEncodedInstruction(instr, rest);
    }
  }

  /** Encoding a concatenation of code is concatenating the encodings. */
  lemma {:induction false} EncodeCodeAppend(a: seq<Instruction>, b: seq<Instruction>)
    ensures EncodeCode(a + b).Success? <==> EncodeCode(a).Success? && EncodeCode(b).Success?
    ensures EncodeCode(a + b).Success? ==> EncodeCode(a + b).value == EncodeCode(a).value + EncodeCode(b).value
  {
    var ea, eb := Encodings(a), Encodings(b);
    assert Encodings(a + b) == ea + eb;
    AllSucceedAppend(ea, eb);
    if AllSucceed(ea + eb) {
      assert Values(ea + eb) == Values(ea) + Values(eb);
      FlattenAppend(Values(ea), Values(eb));
    }
  }

  lemma {:induction false} AllSucceedAppend(ea: seq<Result<seq<byte>, Error>>, eb: seq<Result<seq<byte>, Error>>)
    ensures AllSucceed(ea + eb) <==> AllSucceed(ea) && AllSucceed(eb)
  {
    if AllSucceed(ea + eb) {
      forall i | 0 <= i < |ea|
        ensures ea[i].Success?
      {
        assert ea[i] == (ea + eb)[i];
      }
      forall i | 0 <= i < |eb|
        ensures eb[i].Success?
      {
        assert eb[i] == (ea + eb)[|ea| + i];
      }
    }
  }

  /** A subroutine's bytes are its first instruction's bytes followed by
      the bytes of the rest. */
  lemma {:induction false} EncodeCodeCons(code: seq<Instruction>)
    requires |code| > 0
    ensures EncodeCode(code).Success? <==>
              EncodeInstruction(code[0]).Success? && EncodeCode(code[1..]).Success?
    ensures EncodeCode(code).Success? ==>
              EncodeCode(code).value == EncodeInstruction(code[0]).value + EncodeCode(code[1..]).value
  {
    assert Encodings(code)[1..] == Encodings(code[1..]);
  }

  lemma {:induction false} DecodeAllCons(bs: seq<byte>, d: Decoded, tail: seq<Instruction>)
    requires |bs| > 0 && DecodeInstruction(bs) == Some(d)
    requires DecodeAll(bs[d.size..]) == Some(tail)
    ensures DecodeAll(bs) == Some([d.instr] + tail)
  {
  }

  /** Decoding a subroutine's bytes gives back its instructions in order:
      the subroutine's bytes are exactly its instructions' encodings laid
      end to end. */
  lemma {:induction false} DecodeEncodedCode(code: seq<Instruction>)
    requires AllDecodable(code)
    ensures EncodeCode(code).Success?
    ensures DecodeAll(EncodeCode(code).value) == Some(Canonicals(code))
  {
    if |code| > 0 {
      assert AllDecodable(code[1..]) by {
        forall i | 0 <= i < |code[1..]|
          ensures Decodable(code[1..][i])
        {
          assert code[1..][i] == code[i + 1];
        }
      }
      DecodeEncodedCode(code[1..]);
      DecodeEncodedInstruction(code[0], []);
      EncodeCodeCons(code);
      var first := EncodeInstruction(code[0]).value;
      var rest := EncodeCode(code[1..]).value;
      DecodeEncodedInstruction(code[0], rest);
      DecodeStep(first, rest, Canonical(code[0]), Canonicals(code[1..]));
      assert Canonicals(code) == [Canonical(code[0])] + Canonicals(code[1..]);
    }
  }

  lemma {:induction false} DecodeStep(first: seq<byte>, rest: seq<byte>, instr: Instruction, tail: seq<Instruction>)
    requires |first| > 0
    requires DecodeInstruction(first + rest) == Some(Decoded(instr, |first|))
    requires DecodeAll(rest) == Some(tail)
    ensures DecodeAll(first + rest) == Some([instr] + tail)
  {
    assert (first + rest)[|first|..] == rest;
    DecodeAllCons(first + rest, Decoded(instr, |first|), tail);
  }

  /** All instructions of a subroutine list, in order. */
  function AllCode(routines: seq<SubRoutine>): seq<Instruction> {
    if |routines| == 0 then [] else routines[0].code + AllCode(routines[1..])
  }

  lemma {:induction false} EncodeRoutinesCons(routines: seq<SubRoutine>)
    requires |routines| > 0
    ensures EncodeRoutines(routines).Success? <==>
              EncodeCode(routines[0].code).Success? && EncodeRoutines(routines[1..]).Success?
    ensures EncodeRoutines(routines).Success? ==>
              EncodeRoutines(routines).value == EncodeCode(routines[0].code).value + EncodeRoutines(routines[1..]).value
  {
    var parts := RoutineEncodings(routines);
    assert parts[1..] == RoutineEncodings(routines[1..]);
  }

  /** A module's bytes are the encoding of all its instructions taken in
      subroutine order. */
  lemma {:induction false} EncodeRoutinesIsEncodeCode(routines: seq<SubRoutine>)
    ensures EncodeRoutines(routines) .Success? <==> EncodeCode(AllCode(routines)).Success?
    ensures EncodeRoutines(routines).Success? ==> EncodeRoutines(routines).value == EncodeCode(AllCode(routines)).value
  {
    if |routines| > 0 {
      EncodeRoutinesIsEncodeCode(routines[1..]);
      EncodeCodeAppend(routines[0].code, AllCode(routines[1..]));
      EncodeRoutinesCons(routines);
    }
  }

  /** Decoding a module's bytes lists every subroutine's instructions, the
      subroutines in insertion order. */
  lemma {:induction false} DecodeEncodedModule(m: Module)
    requires AllDecodable(AllCode(m.subRoutines))
    ensures EncodeModule(m).Success?
    ensures DecodeAll(EncodeModule(m).value) == Some(Canonicals(AllCode(m.subRoutines)))
  {
    EncodeRoutinesIsEncodeCode(m.subRoutines);
    DecodeEncodedCode(AllCode(m.subRoutines));
  }
}
