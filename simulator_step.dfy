/// One step of Simulator/simulator.c's processor (execute_instruction) and the
/// fetch-execute loop of its `main`, as functions of the registers, the stack
/// and the program counter.
///
/// The opcode numbers come from instruction.h, which is not part of this
/// model: a table `opcodes` says which operation each number names, and a
/// number the table does not name falls through the `switch` to `pc + 4`.
/// What C leaves undefined (a register field of 17 or more, an `int` access
/// outside the 1024-byte stack, an instruction index past the program) ends
/// the run with Fault.
module SimulatorStep {
  import opened SimulatorWords
  import opened SimulatorDecode

  /** 17 registers. */
  const NUM_REGS: int := 17
  /** Register 6 is the stack pointer %esp. */
  const ESP: int := 6
  /** Register 16 holds the condition flags. */
  const FLAGS: int := 16

  /** The operations of instruction.h, in the order of execute_instruction's `switch`. */
  datatype Op =
    | Subl | AddlRegReg | AddlImmReg | Printr | Readr | Imull | Shrl | MovlRegReg | MovlDerefReg | MovlRegDeref
    | MovlImmReg | Cmpl | Je | Jl | Jle | Jge | Jbe | Jmp | Call | Ret | Pushl | Popl

  datatype Option<T> = None | Some(value: T)

  /** The registers and the stack. */
  datatype Cpu = Cpu(regs: seq<Int32>, mem: seq<Byte>)

  /** 17 registers and a 1024-byte stack. */
  predicate CpuOk(c: Cpu)
  {
    |c.regs| == NUM_REGS && |c.mem| == STACK_SIZE
  }

  /** What execute_instruction does next: continue at a program counter, halt with `exit(0)`, or undefined behaviour. */
  datatype Outcome = Next(pc: U32) | Halt | Fault

  /** The conditional jumps' tests on register 16, as written; jl tests bit 0x400 where the overflow flag is 0x800, and
    * jbe's `registers[16] & 0x1 == 0x1` parses as `registers[16] & (0x1 == 0x1)`, which is the carry bit. */
  function Taken(op: Op, f: Int32): bool
  {
    match op
    case Je => HasBit(f, 0x40)
    case Jl => HasBit(f, 0x80) != HasBit(f, 0x400)
    case Jle => (HasBit(f, 0x80) != HasBit(f, 0x800)) || HasBit(f, 0x40)
    case Jge => !(HasBit(f, 0x80) != HasBit(f, 0x800))
    case Jbe => HasBit(f, 0x1) || HasBit(f, 0x40)
    case _ => true
  }

  /** The flags cmpl computes when its first register holds a and its second b and neither is register 16 (see
    * Compared): CF for unsigned b < a, ZF for a zero difference, SF for a negative 32-bit difference, OF for an exact
    * difference outside the range of `int`. */
  function CompareFlags(a: Int32, b: Int32): Int32
  {
    Flags(Unsigned(b) < Unsigned(a), Wrap(b as int - a) == 0, Wrap(b as int - a) < 0, !(INT_MIN <= b as int - a <= INT_MAX))
  }

  /** cmpl as simulator.c:177-194 runs it: register 16 is cleared, then each of the four tests re-reads both operand
    * registers and `|`s its bit into register 16, which has none of the later bits yet. An operand that is register 16
    * therefore reads the flags set so far; with no such operand, this is CompareFlags of the two values. */
  function Compared(regs: seq<Int32>, r1: nat, r2: nat): (f: Int32)
    requires |regs| == NUM_REGS && r1 < NUM_REGS && r2 < NUM_REGS
    ensures r1 != FLAGS && r2 != FLAGS ==> f == CompareFlags(regs[r1], regs[r2])
    ensures !HasBit(f, 0x400)
  {
    var g0 := regs[FLAGS := Flags(false, false, false, false)];
    var cf := Unsigned(g0[r2]) < Unsigned(g0[r1]);
    var g1 := regs[FLAGS := Flags(cf, false, false, false)];
    var zf := Wrap(g1[r2] as int - g1[r1]) == 0;
    var g2 := regs[FLAGS := Flags(cf, zf, false, false)];
    var sf := Wrap(g2[r2] as int - g2[r1]) < 0;
    var g3 := regs[FLAGS := Flags(cf, zf, sf, false)];
    var of := !(INT_MIN <= g3[r2] as int - g3[r1] <= INT_MAX);
    Flags(cf, zf, sf, of)
  }

  /** execute_instruction for an instruction whose opcode names `op`; `input` is what `scanf` reads for readr, None
    * when it reads nothing (and then leaves the register as it was). printr's output is not modelled. */
  function Execute(op: Op, i: Instruction, c: Cpu, pc: U32, input: Option<Int32>): (r: (Cpu, Outcome))
    requires CpuOk(c)
    ensures CpuOk(r.0)
  {
    var r1, r2, imm, regs, mem := i.first, i.second, i.immediate, c.regs, c.mem;
    var next, jump := Next(U32Of(pc + 4)), Next(U32Of(pc + imm + 4));
    match op
    case Subl =>
      if r1 < NUM_REGS then (c.(regs := regs[r1 := Wrap(regs[r1] as int - imm)]), next) else (c, Fault)
    case AddlRegReg =>
      if r1 < NUM_REGS && r2 < NUM_REGS then (c.(regs := regs[r2 := Wrap(regs[r1] as int + regs[r2])]), next) else (c, Fault)
    case AddlImmReg =>
      if r1 < NUM_REGS then (c.(regs := regs[r1 := Wrap(regs[r1] as int + imm)]), next) else (c, Fault)
    case Printr =>
      if r1 < NUM_REGS then (c, next) else (c, Fault)
    case Readr =>
      if r1 < NUM_REGS then
        (if input.Some? then c.(regs := regs[r1 := input.value]) else c, next)
      else (c, Fault)
    case Imull =>
      if r1 < NUM_REGS && r2 < NUM_REGS then (c.(regs := regs[r2 := Wrap(regs[r1] as int * regs[r2])]), next) else (c, Fault)
    case Shrl =>
      if r1 < NUM_REGS then (c.(regs := regs[r1 := Unsigned(regs[r1]) / 2]), next) else (c, Fault)
    case MovlRegReg =>
      if r1 < NUM_REGS && r2 < NUM_REGS then (c.(regs := regs[r2 := regs[r1]]), next) else (c, Fault)
    case MovlDerefReg =>
      if r1 < NUM_REGS && r2 < NUM_REGS && InStack(mem, regs[r1] as int + imm) then
        (c.(regs := regs[r2 := LoadWord(mem, regs[r1] as int + imm)]), next)
      else (c, Fault)
    case MovlRegDeref =>
      if r1 < NUM_REGS && r2 < NUM_REGS && InStack(mem, regs[r2] as int + imm) then
        (c.(mem := StoreWord(mem, regs[r2] as int + imm, regs[r1])), next)
      else (c, Fault)
    case MovlImmReg =>
      if r1 < NUM_REGS then (c.(regs := regs[r1 := imm]), next) else (c, Fault)
    case Cmpl =>
      if r1 < NUM_REGS && r2 < NUM_REGS then (c.(regs := regs[FLAGS := Compared(regs, r1, r2)]), next)
      else (c, Fault)
    case Je => (c, if Taken(op, regs[FLAGS]) then jump else next)
    case Jl => (c, if Taken(op, regs[FLAGS]) then jump else next)
    case Jle => (c, if Taken(op, regs[FLAGS]) then jump else next)
    case Jge => (c, if Taken(op, regs[FLAGS]) then jump else next)
    case Jbe => (c, if Taken(op, regs[FLAGS]) then jump else next)
    case Jmp => (c, jump)
    case Call =>
      var sp := Wrap(regs[ESP] as int - 4);
      if InStack(mem, sp) then (Cpu(regs[ESP := sp], StoreWord(mem, sp, Signed(U32Of(pc + 4)))), jump) else (c, Fault)
    case Ret =>
      if regs[ESP] == STACK_SIZE then (c, Halt)
      else if InStack(mem, regs[ESP]) then
        (c.(regs := regs[ESP := Wrap(regs[ESP] as int + 4)]), Next(Unsigned(LoadWord(mem, regs[ESP]))))
      else (c, Fault)
    case Pushl =>
      var sp := Wrap(regs[ESP] as int - 4);
      if r1 < NUM_REGS && InStack(mem, sp) then
        var pushed := regs[ESP := sp];
        (Cpu(pushed, StoreWord(mem, sp, pushed[r1])), next)
      else (c, Fault)
    case Popl =>
      if r1 < NUM_REGS && InStack(mem, regs[ESP]) then
        var popped := regs[r1 := LoadWord(mem, regs[ESP])];
        (c.(regs := popped[ESP := Wrap(popped[ESP] as int + 4)]), next)
      else (c, Fault)
  }

  /** The operation of the instruction at byte address pc, if its opcode names one. */
  function OpAt(opcodes: map<nat, Op>, program: seq<Instruction>, pc: U32): Option<Op>
  {
    if pc / 4 < |program| && program[pc / 4].opcode in opcodes then Some(opcodes[program[pc / 4].opcode]) else None
  }

  /** execute_instruction: fetch `instructions[pc / 4]` and run it. */
  function Step(opcodes: map<nat, Op>, program: seq<Instruction>, c: Cpu, pc: U32, input: Option<Int32>): (r: (Cpu, Outcome))
    requires CpuOk(c)
    ensures CpuOk(r.0)
  {
    if pc / 4 < |program| then
      var op := OpAt(opcodes, program, pc);
      if op.Some? then Execute(op.value, program[pc / 4], c, pc, input) else (c, Next(U32Of(pc + 4)))
    else (c, Fault)
  }

  /** How a run ends: the program counter reaches `num_instructions * 4`, ret halts, a step faults at `at`, or the
    * step budget runs out with the machine still running at `at`. */
  datatype Stop = Finished | Halted | Faulted(at: U32) | Running(at: U32)

  /** main's fetch-execute loop for at most `fuel` steps; each readr takes the next of `inputs`. */
  function Run(opcodes: map<nat, Op>, program: seq<Instruction>, c: Cpu, pc: U32, inputs: seq<Int32>, fuel: nat): (r: (Cpu, Stop))
    requires CpuOk(c)
    ensures CpuOk(r.0)
    decreases fuel
  {
    if pc == U32Of(|program| * 4) then (c, Finished)
    else if fuel == 0 then (c, Running(pc))
    else
      var takes := OpAt(opcodes, program, pc) == Some(Readr) && inputs != [];
      var s := Step(opcodes, program, c, pc, if takes then Some(inputs[0]) else None);
      match s.1
      case Next(pc') => Run(opcodes, program, s.0, pc', if takes then inputs[1..] else inputs, fuel - 1)
      case Halt => (s.0, Halted)
      case Fault => (s.0, Faulted(pc))
  }
}
