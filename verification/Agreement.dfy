// The interpreter against the machine the code generator writes for: every instruction
// that does not name a variable or a place in the code does the same to both stacks.

module Agreement {
  import opened Options
  import opened Words
  import opened Types
  import opened StackSet
  import opened StackCells
  import Encoding
  import Machine
  import Vm

  // What a generated instruction computes, if it computes.
  function FunctionOf(op: Machine.Op): Option<Function> {
    match op
    case ARITH(o, wide) => if IsArithmetic(o) then Some(Operator(o, wide)) else None
    case CP(o, wide) => if IsComparison(o) then Some(Operator(o, wide)) else None
    case OR => Some(Operator(BinaryOp.OR, false))
    case AND => Some(Operator(BinaryOp.AND, false))
    case NEG(wide) => Some(Negate(wide))
    case ITOL => Some(IntToLong)
    case LTOI => Some(LongToInt)
    case _ => None
  }

  // The opcode of its mnemonic; the 64-bit form follows the 32-bit one.
  function OpcodeOf(op: Machine.Op): bv8
    requires FunctionOf(op).Some?
  {
    match op
    case ARITH(o, wide) =>
      WideForm(if o.ADD? then 0x1B else if o.SUB? then 0x1F else if o.MUL? then 0x23 else 0x27, wide)
    case CP(o, wide) =>
      WideForm(match o
               case EQ => 0x3B
               case NEQ => 0x3F
               case GT => 0x43
               case LT => 0x47
               case GEQ => 0x4B
               case _ => 0x4F, wide)
    case OR => 0x37
    case AND => 0x38
    case NEG(wide) => WideForm(0x2D, wide)
    case ITOL => 0x5A
    case _ => 0x5E
  }

  function WideForm(opcode: bv8, wide: bool): bv8 { if wide then opcode + 1 else opcode }

  // The dispatch selects for the opcode of a mnemonic what the mnemonic says.
  lemma OpcodesMean(op: Machine.Op, argument: bv64)
    requires FunctionOf(op).Some?
    ensures Meaning(OpcodeOf(op), argument) == Compute(FunctionOf(op).value)
  {
    hide General, Accesses, Signed32, Signed64;
  }

  // The generator's machine on one instruction.
  function Alone(op: Machine.Op, stack: seq<int>): Machine.Outcome {
    Machine.Step([Machine.Plain(op)], Machine.State(0, stack, map[]))
  }

  // The cells up to `sp`.
  function StackOf(s: Vm.State): seq<int>
    requires -1 <= s.sp < |s.cells|
  {
    s.cells[..s.sp + 1]
  }

  predicate SameStack(r: Vm.Outcome, r': Machine.Outcome) {
    match r'
    case Running(m) => r.Running? && -1 <= r.s.sp < |r.s.cells| && StackOf(r.s) == m.stack
    case _ => r == Vm.Undefined
  }

  // The operands on top of a stack replaced by the result, on plain sequences.
  function OnTop(f: Function, stack: seq<int>): Option<seq<int>>
    requires |stack| >= Pops(f)
  {
    var n := |stack| - Pops(f);
    match Results(f, stack[n..])
    case Some(pushed) => Some(stack[..n] + pushed)
    case None => None
  }

  lemma InterpreterOnTop(f: Function, s: Vm.State, next: int)
    requires -1 <= s.sp && s.sp + 1 < |s.cells|
    ensures var r, stack := Vm.ExecuteCompute(f, s, next), StackOf(s);
            if |stack| < Pops(f) || OnTop(f, stack) == None then r == Vm.Undefined
            else r.Running? && -1 <= r.s.sp < |r.s.cells| && StackOf(r.s) == OnTop(f, stack).value
  {
    Vm.PopsBound(f);
    hide Results, Pops, Pushes;
    var from := s.sp - Pops(f) + 1;
    if from >= 0 {
      var popped := Peek(s.cells, from, Pops(f));
      assert popped == StackOf(s)[from..] && StackOf(s)[..from] == s.cells[..from];
      if Results(f, popped).Some? {
        var pushed := Results(f, popped).value;
        assert Poke(s.cells, from, pushed)[..from + |pushed|] == s.cells[..from] + pushed;
      }
    }
  }

  lemma UnaryResults(op: Machine.Op, stack: seq<int>)
    requires op.NEG? || op.ITOL? || op.LTOI? ==> FunctionOf(op).Some?
    ensures op.NEG? || op.ITOL? || op.LTOI? ==>
              var f := FunctionOf(op).value;
              var n := |stack| - Pops(f);
              n >= 0 ==> OnTop(f, stack) == Some(stack[..n] + Results(f, stack[n..]).value)
  {
    hide Join, Wrap32, Wrap64, High, Low;
  }

  lemma AloneIsBinary(op: Machine.Op, stack: seq<int>)
    requires FunctionOf(op).Some?
    ensures var s := Machine.State(0, stack, map[]);
            match op
            case ARITH(o, wide) => Alone(op, stack) == Machine.Binary(s, o, wide, wide)
            case CP(o, wide) => Alone(op, stack) == Machine.Binary(s, o, wide, false)
            case OR => Alone(op, stack) == Machine.Binary(s, BinaryOp.OR, false, false)
            case AND => Alone(op, stack) == Machine.Binary(s, BinaryOp.AND, false, false)
            case _ => true
  {
    hide Machine.Binary;
  }

  lemma GeneratorOnTop(op: Machine.Op, stack: seq<int>)
    requires FunctionOf(op).Some?
    ensures var f, r := FunctionOf(op).value, Alone(op, stack);
            if |stack| < Pops(f) then r == Machine.Stuck
            else if OnTop(f, stack) == None then r == Machine.Trapped
            else r == Machine.Running(Machine.State(1, OnTop(f, stack).value, map[]))
  {
    UnaryResults(op, stack);
    AloneIsBinary(op, stack);
    hide Machine.Binary, OnTop, Results, Alone, Machine.Step;
    match op
    case ARITH(o, wide) => BinaryOnTop(o, wide, wide, stack);
    case CP(o, wide) => BinaryOnTop(o, wide, false, stack);
    case OR => BinaryOnTop(BinaryOp.OR, false, false, stack);
    case AND => BinaryOnTop(BinaryOp.AND, false, false, stack);
    case NEG(wide) => UnaryOnTop(op, stack);
    case ITOL => UnaryOnTop(op, stack);
    case LTOI => UnaryOnTop(op, stack);
  }

  lemma BinaryOnTop(o: BinaryOp, wide: bool, wideResult: bool, stack: seq<int>)
    requires wideResult == (wide && IsArithmetic(o))
    ensures var f := Operator(o, wide);
            Machine.Binary(Machine.State(0, stack, map[]), o, wide, wideResult)
            == if |stack| < Pops(f) then Machine.Stuck
               else match OnTop(f, stack)
                    case None => Machine.Trapped
                    case Some(cells) => Machine.Running(Machine.State(1, cells, map[]))
  {
    hide Apply, Join, Low, High;
    if |stack| >= Pops(Operator(o, wide)) {
      var n := |stack| - Pops(Operator(o, wide));
      var w := Width(wide);
      assert stack[..|stack| - w][..n] == stack[..n];
      assert stack[n..][..w] == stack[n..n + w] && stack[n..][w..] == stack[n + w..];
    }
  }

  lemma UnaryOnTop(op: Machine.Op, stack: seq<int>)
    requires op.NEG? || op.ITOL? || op.LTOI?
    ensures var f := FunctionOf(op).value;
            var n := |stack| - Pops(f);
            Alone(op, stack)
            == if n < 0 then Machine.Stuck
               else Machine.Running(Machine.State(1, stack[..n] + Results(f, stack[n..]).value, map[]))
  {
    hide Join, Wrap32, Wrap64, High;
  }

  // Same operands in the same order, same result in the same cells, and a trap or too
  // few operands in one where there is in the other.
  lemma ComputeAgrees(op: Machine.Op, s: Vm.State, next: int)
    requires FunctionOf(op).Some? && -1 <= s.sp && s.sp + 1 < |s.cells|
    ensures SameStack(Vm.ExecuteCompute(FunctionOf(op).value, s, next), Alone(op, StackOf(s)))
  {
    hide FunctionOf, Alone, OnTop, Pops, StackOf, Vm.ExecuteCompute;
    InterpreterOnTop(FunctionOf(op).value, s, next);
    GeneratorOnTop(op, StackOf(s));
  }

  // A literal whose operand bits hold its value is pushed alike.
  lemma LiteralAgrees(v: int, wide: bool, argument: bv64, s: Vm.State, next: int)
    requires if wide then Signed64(argument) == Wrap64(v) else Signed32(Encoding.Low32(argument)) == Wrap32(v)
    requires -1 <= s.sp && s.sp + 2 < |s.cells|
    ensures var opcode := if wide then 0x0A else 0x09;
            SameStack(Vm.Execute(Meaning(opcode, argument), s, next),
                      Alone(if wide then Machine.LDI_64(v) else Machine.LDI(v), StackOf(s)))
  {
    hide Low, High, Signed32, Signed64, Wrap32, Wrap64;
    var cells := Cells(if wide then Wrap64(v) else Wrap32(v), wide);
    assert Poke(s.cells, s.sp + 1, cells)[..s.sp + 1 + |cells|] == s.cells[..s.sp + 1] + cells;
  }

  // BRZ pops alike on both machines and jumps in one exactly when it does in the other.
  lemma BranchAgrees(target: bv64, jumpAfter: nat, s: Vm.State, next: int)
    requires -1 <= s.sp < |s.cells|
    ensures var r := Vm.Execute(Meaning(0x55, target), s, next);
            var code := [Machine.Instruction(Machine.BRZ, -1, jumpAfter, "", "")];
            match Machine.Step(code, Machine.State(0, StackOf(s), map[]))
            case Running(m) =>
              && r.Running? && -1 <= r.s.sp < |r.s.cells| && StackOf(r.s) == m.stack
              && m.pc == (if s.cells[s.sp] == 0 then jumpAfter + 1 else 1)
              && r.s.ip == if s.cells[s.sp] == 0 then Encoding.Low32(target) as int else next
            case _ => r == Vm.Undefined && s.sp == -1
  {
    hide Encoding.Low32, Signed32, Signed64, Arithmetics, BitStuff, Comparisons, Accesses, General;
    if s.sp >= 0 { assert StackOf(s)[..s.sp] == s.cells[..s.sp]; }
  }
}
