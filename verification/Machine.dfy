// The stack machine the code generator writes for. Variables are addressed by
// their ordinals, as the generator emits them; everything else works on 32-bit
// cells as in vm/stack_impl.h.

module Machine {
  import opened Words
  import opened Types

  datatype Op =
    | LDI(value: int) | LDI_64(value: int)
    | LD(slot: Slot, wide: bool)       // LDL, LDA and their .64 forms
    | ST(slot: Slot, wide: bool)       // STL, STA and their .64 forms
    | ARITH(op: BinaryOp, wide: bool)  // ADD SUB MUL DIV
    | NEG(wide: bool)
    | CP(op: BinaryOp, wide: bool)     // CPEQ CPNQ CPGT CPLT CPGQ CPLQ
    | OR | AND
    | ITOL | LTOI
    | BRZ | JMP | RET

  // One entry of the generator's buffer. `target` is the operand Flush appends.
  datatype Instruction = Instruction(op: Op, jumpTo: int, jumpAfter: int, labelName: string, target: string)

  function Plain(op: Op): Instruction { Instruction(op, -1, -1, "", "") }

  datatype State = State(pc: nat, stack: seq<int>, vars: Vars)

  datatype Outcome =
    | Running(s: State)
    | Halted(s: State)                          // ran past the last instruction
    | Returned(stack: seq<int>, vars: Vars)
    | Trapped
    | Stuck

  function Pop(stack: seq<int>, wide: bool): (int, seq<int>)
    requires |stack| >= (if wide then 2 else 1)
  {
    var n := |stack|;
    if wide then (Join(stack[n - 2], stack[n - 1]), stack[..n - 2]) else (stack[n - 1], stack[..n - 1])
  }

  predicate Holds(stack: seq<int>, wide: bool, values: nat) {
    |stack| >= (if wide then 2 * values else values)
  }

  // Consumes two values and pushes what `op` makes of them.
  function Binary(s: State, op: BinaryOp, wide: bool, wideResult: bool): Outcome {
    if !Holds(s.stack, wide, 2) then Stuck else
    var (b, rest) := Pop(s.stack, wide);
    var (a, rest2) := Pop(rest, wide);
    match Apply(op, wide, a, b)
    case Some(v) => Running(State(s.pc + 1, rest2 + Cells(v, wideResult), s.vars))
    case None => Trapped
  }

  function Push(s: State, cells: seq<int>): Outcome {
    Running(State(s.pc + 1, s.stack + cells, s.vars))
  }

  // The instruction an instruction with a jump continues at.
  function JumpTarget(i: Instruction): int {
    if i.jumpAfter > -1 then i.jumpAfter + 1 else i.jumpTo
  }

  function Jump(s: State, target: int, stack: seq<int>): Outcome {
    if target >= 0 then Running(State(target, stack, s.vars)) else Stuck
  }

  function Step(code: seq<Instruction>, s: State): Outcome
    requires s.pc < |code|
  {
    var i := code[s.pc];
    match i.op
    case LDI(v) => Push(s, [Wrap32(v)])
    case LDI_64(v) => Push(s, Cells(Wrap64(v), true))
    case LD(slot, wide) => Push(s, Cells(Wrap(wide, Get(s.vars, slot)), wide))
    case ST(slot, wide) =>
      if !Holds(s.stack, wide, 1) then Stuck else
      var (v, rest) := Pop(s.stack, wide);
      Running(State(s.pc + 1, rest, s.vars[slot := v]))
    case ARITH(op, wide) => if IsArithmetic(op) then Binary(s, op, wide, wide) else Stuck
    case CP(op, wide) => if IsComparison(op) then Binary(s, op, wide, false) else Stuck
    case OR => Binary(s, BinaryOp.OR, false, false)
    case AND => Binary(s, BinaryOp.AND, false, false)
    case NEG(wide) =>
      if !Holds(s.stack, wide, 1) then Stuck else
      var (v, rest) := Pop(s.stack, wide);
      Running(State(s.pc + 1, rest + Cells(Wrap(wide, -v), wide), s.vars))
    case ITOL =>
      if !Holds(s.stack, false, 1) then Stuck else
      var (v, rest) := Pop(s.stack, false);
      Running(State(s.pc + 1, rest + Cells(v, true), s.vars))
    case LTOI =>
      if !Holds(s.stack, true, 1) then Stuck else
      var (v, rest) := Pop(s.stack, true);
      Running(State(s.pc + 1, rest + [Wrap32(v)], s.vars))
    case BRZ =>
      if !Holds(s.stack, false, 1) then Stuck else
      var (v, rest) := Pop(s.stack, false);
      if v == 0 then Jump(s, JumpTarget(i), rest) else Running(State(s.pc + 1, rest, s.vars))
    case JMP => Jump(s, JumpTarget(i), s.stack)
    case RET => Returned(s.stack, s.vars)
  }

  // `n` steps of the machine, or fewer if it stops before.
  function Steps(code: seq<Instruction>, s: State, n: nat): Outcome
    decreases n
  {
    if s.pc >= |code| then Halted(s)
    else if n == 0 then Running(s)
    else
      match Step(code, s)
      case Running(s') => Steps(code, s', n - 1)
      case r => r
  }

  // Running to the end, for code that only jumps forward.
  function Exec(code: seq<Instruction>, s: State): Outcome
    decreases |code| - s.pc
  {
    if s.pc >= |code| then Halted(s) else
    match Step(code, s)
    case Running(s') => if s'.pc > s.pc then Exec(code, s') else Stuck
    case r => r
  }

  // Every branch goes strictly forward.
  predicate ForwardOnly(code: seq<Instruction>) {
    forall i :: 0 <= i < |code| && (code[i].op == BRZ || code[i].op == JMP) ==> JumpTarget(code[i]) > i
  }

  // Such code stops within its length: no instruction runs twice.
  lemma {:induction false} ForwardHalts(code: seq<Instruction>, s: State, n: nat)
    requires ForwardOnly(code) && s.pc + n >= |code|
    ensures Steps(code, s, n) == Exec(code, s) && !Steps(code, s, n).Running?
    decreases n
  {
    hide Step, ForwardOnly;
    if s.pc < |code| {
      match Step(code, s)
      case Running(s') =>
        StepForward(code, s);
        ForwardHalts(code, s', n - 1);
      case _ =>
    }
  }

  lemma StepForward(code: seq<Instruction>, s: State)
    requires ForwardOnly(code) && s.pc < |code| && Step(code, s).Running?
    ensures Step(code, s).s.pc > s.pc
  {
  }
}
