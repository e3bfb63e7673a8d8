/// What one instruction of Simulator/simulator.c does, stated against the
/// step function of SimulatorStep: where control goes next, which registers
/// and stack bytes change, what cmpl leaves in register 16 and how the
/// conditional jumps read it, and how pushl/popl and call/ret pair up.
module SimulatorProps {
  import opened SimulatorWords
  import opened SimulatorDecode
  import opened SimulatorStep

  // ---------------------------------------------------------------------------
  // Control flow
  // ---------------------------------------------------------------------------

  /** The operations that may continue somewhere other than pc + 4. */
  predicate Transfers(op: Op)
  {
    op.Je? || op.Jl? || op.Jle? || op.Jge? || op.Jbe? || op.Jmp? || op.Call? || op.Ret?
  }

  /** Every operation but the jumps, call and ret continues at pc + 4, unless C leaves it undefined. */
  lemma FallThrough(op: Op, i: Instruction, c: Cpu, pc: U32, input: Option<Int32>)
    requires CpuOk(c) && !Transfers(op)
    ensures Execute(op, i, c, pc, input).1 == Next(U32Of(pc + 4)) || Execute(op, i, c, pc, input).1 == Fault
  {
  }

  /** A jump changes neither registers nor stack; it continues at pc + imm + 4 when its test on register 16 holds
    * (always, for jmp) and at pc + 4 otherwise. */
  lemma Jumps(op: Op, i: Instruction, c: Cpu, pc: U32, input: Option<Int32>)
    requires CpuOk(c) && (op.Je? || op.Jl? || op.Jle? || op.Jge? || op.Jbe? || op.Jmp?)
    ensures Execute(op, i, c, pc, input).0 == c
    ensures Execute(op, i, c, pc, input).1
      == if op.Jmp? || Taken(op, c.regs[FLAGS]) then Next(U32Of(pc + i.immediate + 4)) else Next(U32Of(pc + 4))
  {
  }

  // ---------------------------------------------------------------------------
  // Frames
  // ---------------------------------------------------------------------------

  /** The registers an operation may write: its destination, register 16 for cmpl, register 6 for the stack
    * operations, and both the destination and register 6 for popl. */
  function Writes(op: Op, i: Instruction): set<int>
  {
    match op
    case Subl => {i.first as int}
    case AddlImmReg => {i.first as int}
    case Readr => {i.first as int}
    case Shrl => {i.first as int}
    case MovlImmReg => {i.first as int}
    case AddlRegReg => {i.second as int}
    case Imull => {i.second as int}
    case MovlRegReg => {i.second as int}
    case MovlDerefReg => {i.second as int}
    case Cmpl => {FLAGS}
    case Call => {ESP}
    case Ret => {ESP}
    case Pushl => {ESP}
    case Popl => {i.first as int, ESP}
    case _ => {}
  }

  /** No register outside Writes changes. */
  lemma RegisterFrame(op: Op, i: Instruction, c: Cpu, pc: U32, input: Option<Int32>)
    requires CpuOk(c)
    ensures forall j :: 0 <= j < NUM_REGS && j !in Writes(op, i) ==> Execute(op, i, c, pc, input).0.regs[j] == c.regs[j]
  {
  }

  /** Two stacks agree on every byte outside the four at a. */
  ghost predicate SameOutside(m1: seq<Byte>, m2: seq<Byte>, a: int)
    requires |m1| == |m2|
  {
    forall j :: 0 <= j < |m1| && !(a <= j < a + 4) ==> m1[j] == m2[j]
  }

  /** Only movl_reg_deref, pushl and call write the stack, and each writes just the four bytes of one `int`. */
  lemma MemoryFrame(op: Op, i: Instruction, c: Cpu, pc: U32, input: Option<Int32>)
    requires CpuOk(c)
    ensures !(op.MovlRegDeref? || op.Pushl? || op.Call?) ==> Execute(op, i, c, pc, input).0.mem == c.mem
    ensures exists a :: SameOutside(c.mem, Execute(op, i, c, pc, input).0.mem, a)
  {
    var r := Execute(op, i, c, pc, input);
    var a := if op.MovlRegDeref? && i.second < NUM_REGS then c.regs[i.second] as int + i.immediate
             else if op.Pushl? || op.Call? then Wrap(c.regs[ESP] as int - 4) as int
             else 0;
    assert SameOutside(c.mem, r.0.mem, a);
  }

  // ---------------------------------------------------------------------------
  // cmpl and the conditional jumps
  // ---------------------------------------------------------------------------

  /** cmpl changes register 16 only and never sets bit 0x400. When neither operand is register 16, it sets CF iff
    * unsigned b < a, ZF iff b == a, SF iff the 32-bit difference b - a is negative and OF iff the exact difference
    * overflows (CmplOnFlags gives the cases where an operand is register 16). */
  lemma CmplFlags(i: Instruction, c: Cpu, pc: U32, input: Option<Int32>)
    requires CpuOk(c) && i.first < NUM_REGS && i.second < NUM_REGS
    ensures var a, b := c.regs[i.first], c.regs[i.second];
      var r := Execute(Cmpl, i, c, pc, input);
      var f := r.0.regs[FLAGS];
      && r.0.mem == c.mem && r.1 == Next(U32Of(pc + 4))
      && (forall j :: 0 <= j < NUM_REGS && j != FLAGS ==> r.0.regs[j] == c.regs[j])
      && !HasBit(f, 0x400)
      && (i.first != FLAGS && i.second != FLAGS ==>
        && (HasBit(f, 0x1) <==> Unsigned(b) < Unsigned(a))
        && (HasBit(f, 0x40) <==> b == a)
        && (HasBit(f, 0x80) <==> Wrap(b as int - a) < 0)
        && (HasBit(f, 0x800) <==> !(INT_MIN <= b as int - a <= INT_MAX)))
  {
    var a, b := c.regs[i.first], c.regs[i.second];
    WrapZero(b as int - a);
  }

  /** cmpl with register 16 as an operand reads the flags it has set so far, not the flags before it: `cmpl %16, %16`
    * sets ZF alone whatever register 16 held; `cmpl` of a register holding 0 with register 16 holding SF sets ZF (the
    * ZF test reads 0 - 0), though the flags before it differ from 0; and `cmpl` of register 16 holding SF with a
    * register holding 5 sets nothing, though 5 is greater than 0x80 neither signed nor unsigned. */
  lemma CmplOnFlags(i: Instruction, c: Cpu, pc: U32, input: Option<Int32>)
    requires CpuOk(c) && i.first < NUM_REGS && i.second < NUM_REGS
    ensures var f := Execute(Cmpl, i, c, pc, input).0.regs[FLAGS];
      && (i.first == FLAGS && i.second == FLAGS ==> f == Flags(false, true, false, false))
      && (i.first == 0 && i.second == FLAGS && c.regs[0] == 0 && c.regs[FLAGS] == 0x80 ==>
        f == 0x40 && CompareFlags(c.regs[0], c.regs[FLAGS]) == 0)
      && (i.first == FLAGS && i.second == 0 && c.regs[0] == 5 && c.regs[FLAGS] == 0x80 ==>
        f == 0 && CompareFlags(c.regs[FLAGS], c.regs[0]) == 0x81)
  {
  }

  /** A difference of two `int`s wraps to 0 only when it is 0. */
  lemma WrapZero(d: int)
    requires -TWO_32 < d < TWO_32
    ensures Wrap(d) == 0 <==> d == 0
  {
    if Wrap(d) == 0 {
      assert (0 - d) % TWO_32 == 0;
    }
  }

  /** The sign flag differs from the overflow flag exactly when the exact difference is negative. */
  lemma SignOverflow(a: Int32, b: Int32)
    ensures ((Wrap(b as int - a) < 0) != !(INT_MIN <= b as int - a <= INT_MAX)) <==> b < a
  {
    var d := b as int - a;
    if d > INT_MAX {
      WrapUnique(d, (d - TWO_32) as Int32);
    } else if d < INT_MIN {
      WrapUnique(d, (d + TWO_32) as Int32);
    }
  }

  /** Reading as unsigned keeps equality and changes nothing else about it. */
  lemma UnsignedInjective(a: Int32, b: Int32)
    ensures Unsigned(a) == Unsigned(b) <==> a == b
  {
    if Unsigned(a) == Unsigned(b) {
      SignedUnsigned(a);
      SignedUnsigned(b);
    }
  }

  /** `cmpl a, b` followed by a conditional jump: je jumps iff b == a, jle iff b <= a, jge iff b >= a (signed) and jbe
    * iff b <= a unsigned; jl, whose test reads bit 0x400 instead of OF, jumps iff the wrapped difference b - a is
    * negative. */
  lemma CompareBranch(a: Int32, b: Int32)
    ensures var f := CompareFlags(a, b);
      && (Taken(Je, f) <==> b == a)
      && (Taken(Jle, f) <==> b <= a)
      && (Taken(Jge, f) <==> b >= a)
      && (Taken(Jbe, f) <==> Unsigned(b) <= Unsigned(a))
      && (Taken(Jl, f) <==> Wrap(b as int - a) < 0)
  {
    WrapZero(b as int - a);
    SignOverflow(a, b);
    UnsignedInjective(a, b);
  }

  /** jl's test as the comment beside it describes it: SF xor OF, with OF at bit 0x800 as cmpl sets it. */
  function TakenIntended(f: Int32): bool
  {
    HasBit(f, 0x80) != HasBit(f, 0x800)
  }

  /** With the overflow flag at 0x800, jl after `cmpl a, b` jumps iff b < a. */
  lemma JlIntended(a: Int32, b: Int32)
    ensures TakenIntended(CompareFlags(a, b)) <==> b < a
  {
    SignOverflow(a, b);
  }

  /** `cmpl 1, INT_MIN` then jl: INT_MIN < 1, yet the jump as written is not taken, because INT_MIN - 1 wraps to
    * INT_MAX and bit 0x400 is never set; the intended test takes it. */
  lemma JlMisses()
    ensures INT_MIN < 1
    ensures !Taken(Jl, CompareFlags(1, INT_MIN as Int32))
    ensures TakenIntended(CompareFlags(1, INT_MIN as Int32))
  {
    WrapUnique(INT_MIN - 1, INT_MAX as Int32);
    JlIntended(1, INT_MIN as Int32);
  }

  // ---------------------------------------------------------------------------
  // The stack
  // ---------------------------------------------------------------------------

  /** `pushl r` then `popl s` (neither the stack pointer) sets s to r's old value, restores register 6 and leaves
    * r's value in the four stack bytes below the stack pointer. */
  lemma PushPop(c: Cpu, push: Instruction, pop: Instruction, pc1: U32, pc2: U32, in1: Option<Int32>, in2: Option<Int32>)
    requires CpuOk(c) && 4 <= c.regs[ESP] <= STACK_SIZE
    requires push.first < NUM_REGS && pop.first < NUM_REGS && push.first != ESP && pop.first != ESP
    ensures var s1 := Execute(Pushl, push, c, pc1, in1);
      var s2 := Execute(Popl, pop, s1.0, pc2, in2);
      && s1.1 == Next(U32Of(pc1 + 4)) && s2.1 == Next(U32Of(pc2 + 4))
      && s2.0.regs == c.regs[pop.first := c.regs[push.first]]
      && s2.0.mem == StoreWord(c.mem, c.regs[ESP] - 4, c.regs[push.first])
  {
    var sp := c.regs[ESP] - 4;
    var s1 := Execute(Pushl, push, c, pc1, in1);
    assert s1.0.mem == StoreWord(c.mem, sp, c.regs[push.first]);
    LoadStore(c.mem, sp, c.regs[push.first]);
    assert s1.0.regs == c.regs[ESP := sp];
  }

  /** call stores pc + 4 in the four bytes below the stack pointer and continues at pc + imm + 4; a ret right after it
    * continues at that pc + 4 and gives every register back its value from before the call. */
  lemma CallRet(c: Cpu, call: Instruction, ret: Instruction, pc: U32, pc2: U32, in1: Option<Int32>, in2: Option<Int32>)
    requires CpuOk(c) && 4 <= c.regs[ESP] <= STACK_SIZE
    ensures var s1 := Execute(Call, call, c, pc, in1);
      var s2 := Execute(Ret, ret, s1.0, pc2, in2);
      && s1.1 == Next(U32Of(pc + call.immediate + 4))
      && s1.0.regs == c.regs[ESP := c.regs[ESP] - 4]
      && Unsigned(LoadWord(s1.0.mem, c.regs[ESP] - 4)) == U32Of(pc + 4)
      && s2.1 == Next(U32Of(pc + 4))
      && s2.0.regs == c.regs
  {
    var sp := c.regs[ESP] - 4;
    var s1 := Execute(Call, call, c, pc, in1);
    LoadStore(c.mem, sp, Signed(U32Of(pc + 4)));
    UnsignedSigned(U32Of(pc + 4));
    assert s1.0.regs[ESP] == sp;
  }

  /** ret with the stack pointer at 1024, the empty stack, halts the simulator and changes nothing. */
  lemma RetHalts(i: Instruction, c: Cpu, pc: U32, input: Option<Int32>)
    requires CpuOk(c) && c.regs[ESP] == STACK_SIZE
    ensures Execute(Ret, i, c, pc, input) == (c, Halt)
  {
  }

  // ---------------------------------------------------------------------------
  // The loop
  // ---------------------------------------------------------------------------

  /** Once a run has stopped, more steps change nothing: the result does not depend on the budget. */
  lemma {:induction false} RunMore(opcodes: map<nat, Op>, program: seq<Instruction>, c: Cpu, pc: U32, inputs: seq<Int32>,
                                   fuel: nat, more: nat)
    requires CpuOk(c) && !Run(opcodes, program, c, pc, inputs, fuel).1.Running?
    ensures Run(opcodes, program, c, pc, inputs, fuel + more) == Run(opcodes, program, c, pc, inputs, fuel)
    decreases fuel
  {
    if pc != U32Of(|program| * 4) && fuel > 0 {
      var takes := OpAt(opcodes, program, pc) == Some(Readr) && inputs != [];
      var s := Step(opcodes, program, c, pc, if takes then Some(inputs[0]) else None);
      if s.1.Next? {
        RunMore(opcodes, program, s.0, s.1.pc, if takes then inputs[1..] else inputs, fuel - 1, more);
      }
    }
  }
}
