/** The builder's data model and bookkeeping (ASMForge/builder.h, builder.cpp).

    A module owns its subroutines in insertion order; a subroutine owns its
    instruction list. The C++ classes are mutable objects linked by raw
    back-pointers; here they are values, a subroutine handle is its index in
    the owning module, and every mutating member returns the updated module. */
module Builder {
  import opened Wrappers
  import opened Bytes

  /** `OpCode`. MOV, ADD, SUB, HLT and RET carry the numeric values the
      header declares. PUSH and POP are used by the encoder but their values
      are not declared in the header this model follows, so they have none
      here; no operation needs them (PUSH and POP never reach the branch that
      emits an opcode's value). */
  datatype OpCode = MOV | ADD | SUB | HLT | RET | PUSH | POP {

    predicate HasValue() {
      !PUSH? && !POP?
    }

    /** The enumerator's value as a byte, what `static_cast<uint8_t>(op)` yields. */
    function Value(): byte
      requires HasValue()
    {
      match this
      case MOV => 0x01
      case ADD => 0x02
      case SUB => 0x03
      case HLT => 0xF4
      case RET => 0xC3
    }
  }

  /** `Reg`: the three registers the header names. */
  datatype Reg = AX | CX | DX {
    function Index(): u64 {
      match this
      case AX => 0
      case CX => 1
      case DX => 2
    }
  }

  /** `InstrType`, the operand shape: R = register, M = memory, I = immediate. */
  datatype InstrType = RR | RM | RI | MR | R | NONE

  /** `Instruction`: two 64-bit operands whose meaning depends on the shape,
      and the width flag that selects a REX.W prefix and 8-byte immediates. */
  datatype Instruction = Instruction(op: OpCode, a: u64, b: u64, is64: bool, shape: InstrType)

  /** `SubRoutineBuilder`: a named, append-only instruction list. Its
      back-pointer to the owning module is the module that holds it. */
  datatype SubRoutine = SubRoutine(name: string, code: seq<Instruction>)

  /** A module-level symbol: its name, the 32-bit value stored for it and its
      type tag. */
  datatype Global = Global(name: string, value: u32, typeTag: u64)

  /** `ModuleBuilder`. */
  datatype Module = Module(name: string, is64Bit: bool, subRoutines: seq<SubRoutine>, globals: seq<Global>)

  /** The conditions under which the library aborts. */
  datatype Error =
    | UnsupportedInstructionType
    | DuplicateSubRoutine(name: string)
    | NoEntryPoint(entry: string)
    | EntryNameTooLong(entry: string)

  /** The `Instruction` constructor with its default arguments. */
  function NewInstruction(op: OpCode, a: u64 := 0, b: u64 := 0, is64: bool := true, shape: InstrType := NONE): Instruction {
    Instruction(op, a, b, is64, shape)
  }

  /** Constructing an instruction from its opcode alone gives a 64-bit,
      operand-less instruction whose operands are both zero. */
  lemma {:induction false} NewInstructionDefaults(op: OpCode)
    ensures NewInstruction(op).is64 && NewInstruction(op).shape == NONE
    ensures NewInstruction(op).a == 0 && NewInstruction(op).b == 0
  {
  }

  /** `ModuleBuilder(moduleName, is64Bit)`: an empty module. */
  function NewModule(name: string, is64Bit: bool): (m: Module)
    ensures m.name == name && m.is64Bit == is64Bit
    ensures |m.subRoutines| == 0 && |m.globals| == 0
  {
    Module(name, is64Bit, [], [])
  }

  /** `Create(op, a, b, type)`: the instruction with the owning module's width. */
  function Create(owner: Module, op: OpCode, a: u64 := 0, b: u64 := 0, shape: InstrType := NONE): (r: Instruction)
    ensures r.is64 == owner.is64Bit
    ensures r.op == op && r.a == a && r.b == b && r.shape == shape
  {
    NewInstruction(op, a, b, owner.is64Bit, shape)
  }

  /** `Create(op, Reg a, uint64_t b)`: a register-immediate instruction. */
  function CreateRegImm(owner: Module, op: OpCode, reg: Reg, imm: u64 := 0): (r: Instruction)
    ensures r.shape == RI && r.op == op
    ensures r.a == reg.Index() && r.b == imm
    ensures r.is64 == owner.is64Bit
  {
    Create(owner, op, reg.Index(), imm, RI)
  }

  /** `Create(op, Reg a, Reg b)`: a register-register instruction. */
  function CreateRegReg(owner: Module, op: OpCode, x: Reg, y: Reg): (r: Instruction)
    ensures r.shape == RR && r.op == op
    ensures r.a == x.Index() && r.b == y.Index()
    ensures r.is64 == owner.is64Bit
  {
    Create(owner, op, x.Index(), y.Index(), RR)
  }

  /** Some subroutine of `routines` is called `name`. */
  predicate HasRoutineNamed(routines: seq<SubRoutine>, name: string) {
    exists i | 0 <= i < |routines| :: routines[i].name == name
  }

  /** The scan `CreateSubRoutine` makes over the existing subroutines. */
  function NameTaken(routines: seq<SubRoutine>, name: string): (taken: bool)
    ensures taken <==> HasRoutineNamed(routines, name)
  {
    if |routines| == 0 then false
    else if routines[0].name == name then true
    else
      var rest := NameTaken(routines[1..], name);
      assert HasRoutineNamed(routines[1..], name) ==> HasRoutineNamed(routines, name) by {
        if HasRoutineNamed(routines[1..], name) {
          var i :| 0 <= i < |routines[1..]| && routines[1..][i].name == name;
          assert routines[i + 1].name == name;
        }
      }
      assert HasRoutineNamed(routines, name) && routines[0].name != name ==> HasRoutineNamed(routines[1..], name) by {
        if HasRoutineNamed(routines, name) && routines[0].name != name {
          var i :| 0 <= i < |routines| && routines[i].name == name;
          assert routines[1..][i - 1].name == name;
        }
      }
      rest
  }

  /** `CreateSubRoutine(name)`: fails when the name is taken, otherwise
      appends an empty subroutine of that name. Its handle is the index of
      the new last subroutine. */
  function CreateSubRoutine(m: Module, name: string): (r: Result<Module, Error>)
    ensures r.Failure? <==> HasRoutineNamed(m.subRoutines, name)
    ensures r.Failure? ==> r.error == DuplicateSubRoutine(name)
    ensures r.Success? ==>
              && |r.value.subRoutines| == |m.subRoutines| + 1
              && r.value.subRoutines[..|m.subRoutines|] == m.subRoutines
              && r.value.subRoutines[|m.subRoutines|] == SubRoutine(name, [])
              && r.value.name == m.name && r.value.is64Bit == m.is64Bit
              && r.value.globals == m.globals
  {
    if NameTaken(m.subRoutines, name) then Failure(DuplicateSubRoutine(name))
    else Success(m.(subRoutines := m.subRoutines + [SubRoutine(name, [])]))
  }

  /** `Append(instruction)` on the subroutine with handle `i`. */
  function Append(m: Module, i: nat, instr: Instruction): (r: Module)
    requires i < |m.subRoutines|
    ensures |r.subRoutines| == |m.subRoutines|
    ensures r.subRoutines[i].name == m.subRoutines[i].name
    ensures |r.subRoutines[i].code| == |m.subRoutines[i].code| + 1
    ensures r.subRoutines[i].code[..|m.subRoutines[i].code|] == m.subRoutines[i].code
    ensures r.subRoutines[i].code[|m.subRoutines[i].code|] == instr
    ensures forall j | 0 <= j < |m.subRoutines| && j != i :: r.subRoutines[j] == m.subRoutines[j]
    ensures r.name == m.name && r.is64Bit == m.is64Bit && r.globals == m.globals
  {
    var routine := m.subRoutines[i];
    m.(subRoutines := m.subRoutines[i := routine.(code := routine.code + [instr])])
  }

  /** `GetCode()` of the subroutine with handle `i`. */
  function GetCode(m: Module, i: nat): seq<Instruction>
    requires i < |m.subRoutines|
  {
    m.subRoutines[i].code
  }

  /** Reading a subroutine's code after an append shows the earlier
      instructions followed by the new one; other subroutines read as before. */
  lemma {:induction false} GetCodeAfterAppend(m: Module, i: nat, j: nat, instr: Instruction)
    requires i < |m.subRoutines| && j < |m.subRoutines|
    ensures GetCode(Append(m, i, instr), j) == if i == j then GetCode(m, j) + [instr] else GetCode(m, j)
  {
  }

  /** No two subroutines share a name. */
  predicate UniqueNames(routines: seq<SubRoutine>) {
    forall i, j | 0 <= i < j < |routines| :: routines[i].name != routines[j].name
  }

  /** A successful `CreateSubRoutine` keeps the names pairwise distinct. */
  lemma {:induction false} CreateSubRoutineKeepsNamesUnique(m: Module, name: string)
    requires UniqueNames(m.subRoutines)
    requires CreateSubRoutine(m, name).Success?
    ensures UniqueNames(CreateSubRoutine(m, name).value.subRoutines)
  {
    var rs := CreateSubRoutine(m, name).value.subRoutines;
    forall i, j | 0 <= i < j < |rs|
      ensures rs[i].name != rs[j].name
    {
      if j == |m.subRoutines| {
        assert rs[i] == m.subRoutines[i];
      } else {
        assert rs[i] == m.subRoutines[i] && rs[j] == m.subRoutines[j];
      }
    }
  }

  /** Appending never renames a subroutine, so it keeps names distinct. */
  lemma {:induction false} AppendKeepsNamesUnique(m: Module, i: nat, instr: Instruction)
    requires i < |m.subRoutines|
    requires UniqueNames(m.subRoutines)
    ensures UniqueNames(Append(m, i, instr).subRoutines)
  {
    var rs := Append(m, i, instr).subRoutines;
    forall j, k | 0 <= j < k < |rs|
      ensures rs[j].name != rs[k].name
    {
      assert rs[j].name == m.subRoutines[j].name;
      assert rs[k].name == m.subRoutines[k].name;
    }
  }

  /** Calls `CreateSubRoutine` once per name, in order, stopping at the first failure. */
  function CreateAll(m: Module, names: seq<string>): Result<Module, Error>
    decreases |names|
  {
    if |names| == 0 then Success(m)
    else
      var m' :- CreateSubRoutine(m, names[0]);
      CreateAll(m', names[1..])
  }

  /** After any sequence of successful `CreateSubRoutine` calls the module
      holds the old subroutines followed by the new names, in call order, and
      all subroutine names are pairwise distinct. */
  lemma {:induction false} CreateAllKeepsNamesUnique(m: Module, names: seq<string>)
    requires UniqueNames(m.subRoutines)
    requires CreateAll(m, names).Success?
    ensures UniqueNames(CreateAll(m, names).value.subRoutines)
    ensures |CreateAll(m, names).value.subRoutines| == |m.subRoutines| + |names|
    ensures CreateAll(m, names).value.subRoutines[..|m.subRoutines|] == m.subRoutines
    ensures forall k | 0 <= k < |names| ::
              CreateAll(m, names).value.subRoutines[|m.subRoutines| + k] == SubRoutine(names[k], [])
    decreases |names|
  {
    if |names| > 0 {
      var m' := CreateSubRoutine(m, names[0]).value;
      CreateSubRoutineKeepsNamesUnique(m, names[0]);
      CreateAllKeepsNamesUnique(m', names[1..]);
      var rs := CreateAll(m, names).value.subRoutines;
      assert rs == CreateAll(m', names[1..]).value.subRoutines;
      assert rs[..|m.subRoutines|] == m'.subRoutines[..|m.subRoutines|];
      forall k | 0 <= k < |names|
        ensures rs[|m.subRoutines| + k] == SubRoutine(names[k], [])
      {
        if k == 0 {
          assert rs[|m.subRoutines|] == rs[..|m'.subRoutines|][|m.subRoutines|];
        } else {
          assert rs[|m'.subRoutines| + (k - 1)] == SubRoutine(names[1..][k - 1], []);
        }
      }
    }
  }

  /** Creating the same name twice always fails on the second call. */
  lemma {:induction false} CreateSameNameTwiceFails(m: Module, name: string)
    requires CreateSubRoutine(m, name).Success?
    ensures CreateSubRoutine(CreateSubRoutine(m, name).value, name) == Failure(DuplicateSubRoutine(name))
  {
    var m' := CreateSubRoutine(m, name).value;
    assert m'.subRoutines[|m.subRoutines|].name == name;
  }
}
