/// The procedures of Simulator/simulator.c over its arrays: decode_instructions
/// fills the instruction array, execute_instruction updates the register and
/// stack arrays in place and returns the next program counter, and `main`
/// runs the fetch-execute loop.  Each is proved against the functions of
/// SimulatorDecode and SimulatorStep.
module Simulator {
  import opened SimulatorWords
  import opened SimulatorDecode
  import opened SimulatorStep

  /** decode_instructions: element k of the result is the decoding of word k, and of nothing else. */
  method DecodeInstructions(bytes: array<U32>) returns (instructions: array<Instruction>)
    ensures fresh(instructions) && instructions.Length == bytes.Length
    ensures forall k :: 0 <= k < bytes.Length ==> instructions[k] == Decode(bytes[k])
  {
    instructions := new Instruction[bytes.Length](_ => Instruction(0, 0, 0, 0));
    var i := 0;
    while i < bytes.Length
      invariant 0 <= i <= bytes.Length
      invariant forall k :: 0 <= k < i ==> instructions[k] == Decode(bytes[k])
    {
      instructions[i] := Decode(bytes[i]);
      i := i + 1;
    }
  }

  /** `*(int*)&memory[a] = v`, byte by byte. */
  method StoreAt(memory: array<Byte>, a: int, v: Int32)
    requires InStack(memory[..], a)
    modifies memory
    ensures memory[..] == StoreWord(old(memory[..]), a, v)
  {
    var u := Unsigned(v);
    memory[a] := u % 0x100;
    memory[a + 1] := u / 0x100 % 0x100;
    memory[a + 2] := u / 0x1_0000 % 0x100;
    memory[a + 3] := u / 0x100_0000;
  }

  /** execute_instruction: runs `instructions[pc / 4]` on the registers and the stack, in place, and says where to
    * continue; `input` is what readr's `scanf` reads. */
  method ExecuteInstruction(pc: U32, instructions: array<Instruction>, registers: array<Int32>, memory: array<Byte>,
                            opcodes: map<nat, Op>, input: Option<Int32>) returns (out: Outcome)
    requires registers.Length == NUM_REGS && memory.Length == STACK_SIZE
    modifies registers, memory
    ensures (Cpu(registers[..], memory[..]), out)
      == Step(opcodes, instructions[..], Cpu(old(registers[..]), old(memory[..])), pc, input)
  {
    if pc / 4 >= instructions.Length {
      return Fault;
    }
    var instr := instructions[pc / 4];
    if instr.opcode !in opcodes {
      return Next(U32Of(pc + 4));
    }
    var op := opcodes[instr.opcode];
    if op.Je? || op.Jl? || op.Jle? || op.Jge? || op.Jbe? || op.Jmp? {
      out := Branch(op, instr, pc, registers, memory, input);
    } else if op.MovlDerefReg? || op.MovlRegDeref? {
      out := Access(op, instr, pc, registers, memory, input);
    } else if op.Call? || op.Ret? || op.Pushl? || op.Popl? {
      out := StackOp(op, instr, pc, registers, memory, input);
    } else {
      out := Compute(op, instr, pc, registers, memory, input);
    }
  }

  /** The cases of execute_instruction that change at most one register. */
  method Compute(op: Op, instr: Instruction, pc: U32, registers: array<Int32>, memory: array<Byte>, input: Option<Int32>)
    returns (out: Outcome)
    requires registers.Length == NUM_REGS && memory.Length == STACK_SIZE
    requires !(op.Je? || op.Jl? || op.Jle? || op.Jge? || op.Jbe? || op.Jmp?)
    requires !(op.MovlDerefReg? || op.MovlRegDeref? || op.Call? || op.Ret? || op.Pushl? || op.Popl?)
    modifies registers
    ensures (Cpu(registers[..], memory[..]), out) == Execute(op, instr, Cpu(old(registers[..]), memory[..]), pc, input)
  {
    var r1, r2, imm := instr.first, instr.second, instr.immediate;
    out := Next(U32Of(pc + 4));
    match op
    case Subl =>
      if r1 < NUM_REGS { registers[r1] := Wrap(registers[r1] as int - imm); } else { out := Fault; }
    case AddlRegReg =>
      if r1 < NUM_REGS && r2 < NUM_REGS {
        registers[r2] := Wrap(registers[r1] as int + registers[r2]);
      } else { out := Fault; }
    case AddlImmReg =>
      if r1 < NUM_REGS { registers[r1] := Wrap(registers[r1] as int + imm); } else { out := Fault; }
    case Printr =>
      if r1 >= NUM_REGS { out := Fault; }
    case Readr =>
      if r1 < NUM_REGS {
        if input.Some? { registers[r1] := input.value; }
      } else { out := Fault; }
    case Imull =>
      if r1 < NUM_REGS && r2 < NUM_REGS {
        registers[r2] := Wrap(registers[r1] as int * registers[r2]);
      } else { out := Fault; }
    case Shrl =>
      if r1 < NUM_REGS { registers[r1] := Unsigned(registers[r1]) / 2; } else { out := Fault; }
    case MovlRegReg =>
      if r1 < NUM_REGS && r2 < NUM_REGS { registers[r2] := registers[r1]; } else { out := Fault; }
    case MovlImmReg =>
      if r1 < NUM_REGS { registers[r1] := imm; } else { out := Fault; }
    case Cmpl =>
      if r1 < NUM_REGS && r2 < NUM_REGS {
        Compare(r1, r2, registers);
      } else { out := Fault; }
  }

  /** cmpl: register 16 is cleared, then each test re-reads the operands and sets its flag. */
  method Compare(r1: nat, r2: nat, registers: array<Int32>)
    requires registers.Length == NUM_REGS && r1 < NUM_REGS && r2 < NUM_REGS
    modifies registers
    ensures registers[..] == old(registers[..])[FLAGS := Compared(old(registers[..]), r1, r2)]
  {
    // Each `registers[16] |= bit` adds one flag to those set so far: it writes Flags with that flag now true.
    ghost var regs := registers[..];
    var cf, zf, sf, of := false, false, false, false;
    registers[FLAGS] := Flags(cf, zf, sf, of);
    if Unsigned(registers[r2]) < Unsigned(registers[r1]) {
      cf := true;
      registers[FLAGS] := Flags(cf, zf, sf, of);
    }
    assert registers[..] == regs[FLAGS := Flags(cf, false, false, false)];
    if Wrap(registers[r2] as int - registers[r1]) == 0 {
      zf := true;
      registers[FLAGS] := Flags(cf, zf, sf, of);
    }
    assert registers[..] == regs[FLAGS := Flags(cf, zf, false, false)];
    if Wrap(registers[r2] as int - registers[r1]) < 0 {
      sf := true;
      registers[FLAGS] := Flags(cf, zf, sf, of);
    }
    assert registers[..] == regs[FLAGS := Flags(cf, zf, sf, false)];
    if !(INT_MIN <= registers[r2] as int - registers[r1] <= INT_MAX) {
      of := true;
      registers[FLAGS] := Flags(cf, zf, sf, of);
    }
    assert registers[FLAGS] == Compared(regs, r1, r2);
  }

  /** The jumps: only the program counter changes. */
  method Branch(op: Op, instr: Instruction, pc: U32, registers: array<Int32>, memory: array<Byte>, input: Option<Int32>)
    returns (out: Outcome)
    requires registers.Length == NUM_REGS && memory.Length == STACK_SIZE
    requires op.Je? || op.Jl? || op.Jle? || op.Jge? || op.Jbe? || op.Jmp?
    ensures (Cpu(registers[..], memory[..]), out) == Execute(op, instr, Cpu(registers[..], memory[..]), pc, input)
  {
    out := Next(U32Of(pc + 4));
    if op.Jmp? || Taken(op, registers[FLAGS]) {
      out := Next(U32Of(pc + instr.immediate + 4));
    }
  }

  /** movl through a register: a load from or a store to the stack. */
  method Access(op: Op, instr: Instruction, pc: U32, registers: array<Int32>, memory: array<Byte>, input: Option<Int32>)
    returns (out: Outcome)
    requires registers.Length == NUM_REGS && memory.Length == STACK_SIZE
    requires op.MovlDerefReg? || op.MovlRegDeref?
    modifies registers, memory
    ensures (Cpu(registers[..], memory[..]), out) == Execute(op, instr, Cpu(old(registers[..]), old(memory[..])), pc, input)
  {
    var r1, r2, imm := instr.first, instr.second, instr.immediate;
    out := Next(U32Of(pc + 4));
    if op.MovlDerefReg? {
      if r1 < NUM_REGS && r2 < NUM_REGS && InStack(memory[..], registers[r1] as int + imm) {
        registers[r2] := LoadWord(memory[..], registers[r1] as int + imm);
      } else { out := Fault; }
    } else {
      if r1 < NUM_REGS && r2 < NUM_REGS && InStack(memory[..], registers[r2] as int + imm) {
        StoreAt(memory, registers[r2] as int + imm, registers[r1]);
      } else { out := Fault; }
    }
  }

  /** call, ret, pushl and popl: %esp moves by four and a word goes to or comes from the stack. */
  method StackOp(op: Op, instr: Instruction, pc: U32, registers: array<Int32>, memory: array<Byte>, input: Option<Int32>)
    returns (out: Outcome)
    requires registers.Length == NUM_REGS && memory.Length == STACK_SIZE
    requires op.Call? || op.Ret? || op.Pushl? || op.Popl?
    modifies registers, memory
    ensures (Cpu(registers[..], memory[..]), out) == Execute(op, instr, Cpu(old(registers[..]), old(memory[..])), pc, input)
  {
    if op.Call? || op.Ret? {
      out := CallOrReturn(op, instr, pc, registers, memory, input);
    } else {
      out := PushOrPop(op, instr, pc, registers, memory, input);
    }
  }

  /** call pushes the return address and jumps; ret pops it, or halts on the empty stack. */
  method CallOrReturn(op: Op, instr: Instruction, pc: U32, registers: array<Int32>, memory: array<Byte>,
                      input: Option<Int32>) returns (out: Outcome)
    requires registers.Length == NUM_REGS && memory.Length == STACK_SIZE
    requires op.Call? || op.Ret?
    modifies registers, memory
    ensures (Cpu(registers[..], memory[..]), out) == Execute(op, instr, Cpu(old(registers[..]), old(memory[..])), pc, input)
  {
    var imm := instr.immediate;
    if op.Call? {
      var sp := Wrap(registers[ESP] as int - 4);
      if InStack(memory[..], sp) {
        registers[ESP] := sp;
        StoreAt(memory, sp, Signed(U32Of(pc + 4)));
        out := Next(U32Of(pc + imm + 4));
      } else { out := Fault; }
    } else {
      if registers[ESP] == STACK_SIZE {
        out := Halt;
      } else if InStack(memory[..], registers[ESP]) {
        var back := LoadWord(memory[..], registers[ESP]);
        registers[ESP] := Wrap(registers[ESP] as int + 4);
        out := Next(Unsigned(back));
      } else { out := Fault; }
    }
  }

  /** pushl stores a register below %esp; popl loads one from %esp. */
  method PushOrPop(op: Op, instr: Instruction, pc: U32, registers: array<Int32>, memory: array<Byte>,
                   input: Option<Int32>) returns (out: Outcome)
    requires registers.Length == NUM_REGS && memory.Length == STACK_SIZE
    requires op.Pushl? || op.Popl?
    modifies registers, memory
    ensures (Cpu(registers[..], memory[..]), out) == Execute(op, instr, Cpu(old(registers[..]), old(memory[..])), pc, input)
  {
    var r1 := instr.first;
    out := Next(U32Of(pc + 4));
    if op.Pushl? {
      var sp := Wrap(registers[ESP] as int - 4);
      if r1 < NUM_REGS && InStack(memory[..], sp) {
        registers[ESP] := sp;
        StoreAt(memory, sp, registers[r1]);
      } else { out := Fault; }
    } else {
      if r1 < NUM_REGS && InStack(memory[..], registers[ESP]) {
        registers[r1] := LoadWord(memory[..], registers[ESP]);
        registers[ESP] := Wrap(registers[ESP] as int + 4);
      } else { out := Fault; }
    }
  }

  /** main's simulation: %esp starts at 1024, the program counter at 0, and instructions run until the program counter
    * is `num_instructions * 4`; ret on the empty stack halts.  The loop is bounded by `fuel` steps. */
  method Simulate(instructions: array<Instruction>, registers: array<Int32>, memory: array<Byte>, opcodes: map<nat, Op>,
                  inputs: seq<Int32>, fuel: nat) returns (stop: Stop)
    requires registers.Length == NUM_REGS && memory.Length == STACK_SIZE
    modifies registers, memory
    ensures (Cpu(registers[..], memory[..]), stop)
      == Run(opcodes, instructions[..], Cpu(old(registers[..])[ESP := STACK_SIZE], old(memory[..])), 0, inputs, fuel)
  {
    registers[ESP] := STACK_SIZE;
    ghost var start := Cpu(registers[..], memory[..]);
    var pc: U32 := 0;
    var rest, steps := inputs, fuel;
    while pc != U32Of(instructions.Length * 4) && steps > 0
      invariant Run(opcodes, instructions[..], Cpu(registers[..], memory[..]), pc, rest, steps)
        == Run(opcodes, instructions[..], start, 0, inputs, fuel)
      decreases steps
    {
      var takes := OpAt(opcodes, instructions[..], pc) == Some(Readr) && rest != [];
      var out := ExecuteInstruction(pc, instructions, registers, memory, opcodes, if takes then Some(rest[0]) else None);
      if out.Halt? {
        return Halted;
      } else if out.Fault? {
        return Faulted(pc);
      }
      pc := out.pc;
      if takes {
        rest := rest[1..];
      }
      steps := steps - 1;
    }
    stop := if pc == U32Of(instructions.Length * 4) then Finished else Running(pc);
  }
}
