// The interpreter as it stands in vm/stack_impl.h: fields updated in place by a
// dispatch loop. Every method is proved against the step function of Vm.

module Interpreter {
  import opened Options
  import opened Words
  import opened Encoding
  import opened StackSet
  import opened StackCells
  import opened Vm
  import SysPrint

  // How one case of the dispatch ends: by `break`, by `return`, or in a way the model
  // does not follow.
  datatype Signal = Break | Leave(code: int) | Fault | Unsupported

  class StackInterpreter {
    const program: Program
    const decoder: Decoder
    const stack: array<int>
    var sp: int
    var stackFrame: int
    var stackFrameLocals: int
    var instrPtr: int
    var sysArgs: seq<nat>

    ghost predicate Valid()
      reads this
    {
      stack.Length == REACHABLE && stackFrameLocals == stackFrame + 1
    }

    ghost function Contents(): State
      reads this, stack
    {
      State(instrPtr, stack[..], sp, stackFrame, sysArgs)
    }

    // Does a case that ended with `signal` have the given outcome?
    ghost predicate Has(signal: Signal, r: Outcome)
      reads this, stack
    {
      match r
      case Running(s) => signal == Break && Contents() == s
      case Exited(code) => signal == Leave(code)
      case Undefined => signal == Fault
      case Unmodelled => signal == Unsupported
    }

    constructor AllocateStack(p: Program, d: Decoder)
      ensures Valid() && fresh(stack) && program == p && decoder == d
      ensures exists garbage :: |garbage| == REACHABLE && Contents() == InitialState(garbage)
    {
      program := p;
      decoder := d;
      stack := new int[REACHABLE];
      stackFrame, stackFrameLocals := 0, 1;
      instrPtr := 0;
      sysArgs := [];
      sp := 0;
      new;
      ghost var garbage := stack[..];
      stack[sp] := 0xAC1D;
      sp := sp + 1;
      stack[sp] := 0xFACE;
      assert stack[..] == Poke(garbage, 0, [0xAC1D, 0xFACE]);
      assert Contents() == InitialState(garbage);
    }

    // A store of one cell or of two, as the 32-bit and 64-bit pointer casts do it.
    method Put(at: int, values: seq<int>)
      requires Within(stack[..], at, |values|) && |values| <= 2
      modifies stack
      ensures stack[..] == Poke(old(stack[..]), at, values)
    {
      if |values| >= 1 {
        stack[at] := values[0];
      }
      if |values| == 2 {
        stack[at + 1] := values[1];
      }
    }

    method SHARED_CALL(to: nat, next: int) returns (signal: Signal)
      requires Valid()
      modifies this, stack
      ensures Valid() && Has(signal, Execute(Operation.Call(to), old(Contents()), next))
    {
      if !(0 <= sp + 1 && sp + 2 < stack.Length) {
        return Fault;
      }
      var tmp1 := stackFrame;
      sp := sp + 1;
      stackFrame := sp;
      stackFrameLocals := stackFrame + 1;
      stack[sp] := tmp1;
      sp := sp + 1;
      stack[sp] := Wrap32(next);
      instrPtr := to;
      assert stack[..] == Poke(old(stack[..]), old(sp) + 1, [tmp1, Wrap32(next)]);
      return Break;
    }

    // RET, RET.32 and RET.64: `width` cells on top of the stack survive the frame.
    method SHARED_RET(argBytes: nat, width: nat) returns (signal: Signal)
      requires Valid() && width <= 2
      modifies this, stack
      ensures Valid() && Has(signal, ExecuteReturn(argBytes, width, old(Contents())))
    {
      hide Poke, Peek;
      var base := stackFrame - argBytes / 4;
      if argBytes % 4 != 0 || !Within(stack[..], stackFrame, 2) || !Within(stack[..], sp - width + 1, width)
         || !Within(stack[..], base, width) {
        return Fault;
      }
      var tmp1 := sp - width + 1;
      instrPtr := stack[stackFrame + 1];
      sp := base - 1;
      stackFrame := stack[stackFrame];
      stackFrameLocals := stackFrame + 1;
      if width > 0 {
        Put(base, Peek(stack[..], tmp1, width));
        sp := sp + width;
      }
      return Break;
    }

    method SHARED_SCALL(id: nat, next: int) returns (signal: Signal)
      requires Valid()
      modifies this
      ensures Valid() && Has(signal, ExecuteSysCall(id, old(Contents()), next))
    {
      if id == 0 {
        var width := SysPrint.TypeWidths(sysArgs);
        if !Within(stack[..], sp, 1) || !Within(stack[..], sp - width + 1, width) {
          return Fault;
        }
        var argVal, lowered := SysPrint.SysPrint(sysArgs, stack, sp);
        sp := lowered;
      } else if id == 1 || id == 6 {
        return Unsupported;
      }
      sysArgs := [];
      instrPtr := next;
      return Break;
    }

    // LDL, LDA and their 64-bit forms.
    method LoadCells(area: Area, offset: nat, width: nat, next: int) returns (signal: Signal)
      requires Valid() && 1 <= width <= 2
      modifies this, stack
      ensures Valid() && Has(signal, ExecuteLoad(area, offset, width, old(Contents()), next))
    {
      hide Poke, Peek;
      var from := if area == Locals then stackFrameLocals + offset / 4 else stackFrame - offset / 4;
      if offset % 4 != 0 || !Within(stack[..], from, width) || !Within(stack[..], sp + 1, width) {
        return Fault;
      }
      sp := sp + 1;
      Put(sp, Peek(stack[..], from, width));
      sp := sp + width - 1;
      instrPtr := next;
      return Break;
    }

    // STL, STA and their 64-bit forms.
    method StoreCells(area: Area, offset: nat, width: nat, next: int) returns (signal: Signal)
      requires Valid() && 1 <= width <= 2
      modifies this, stack
      ensures Valid() && Has(signal, ExecuteStore(area, offset, width, old(Contents()), next))
    {
      hide Poke, Peek;
      var to := if area == Locals then stackFrameLocals + offset / 4 else stackFrame - offset / 4;
      var from := sp - width + 1;
      if offset % 4 != 0 || !Within(stack[..], from, width) || !Within(stack[..], to, width) {
        return Fault;
      }
      Put(to, Peek(stack[..], from, width));
      sp := sp - width;
      instrPtr := next;
      return Break;
    }

    // The STACK_OP macros: pop the operands, push what comes of them.
    method StackOp(f: Function, next: int) returns (signal: Signal)
      requires Valid()
      modifies this, stack
      ensures Valid() && Has(signal, ExecuteCompute(f, old(Contents()), next))
    {
      PopsBound(f);
      hide Results, Pops, Pushes, Poke, Peek;
      var from := sp - Pops(f) + 1;
      if !Within(stack[..], from, Pops(f)) {
        return Fault;
      }
      var r := Results(f, Peek(stack[..], from, Pops(f)));
      if r == None || !Within(stack[..], from, |r.value|) {
        return Fault;
      }
      sp := from - 1;
      Put(from, r.value);
      sp := sp + |r.value|;
      instrPtr := next;
      return Break;
    }

    // One case of the dispatch.
    method Dispatch(o: Operation, next: int) returns (signal: Signal)
      requires Valid() && WellFormed(o)
      modifies this, stack
      ensures Valid() && Has(signal, Execute(o, old(Contents()), next))
    {
      match o {
        case Nop =>
          instrPtr := next;
        case Exit =>
          return Leave(0);
        case Jump(to) =>
          instrPtr := to;
        case Branch(onZero, to) =>
          if !Within(stack[..], sp, 1) {
            return Fault;
          }
          instrPtr := if (stack[sp] == 0) == onZero then to else next;
          sp := sp - 1;
        case Call(to) =>
          signal := SHARED_CALL(to, next);
          return;
        case Return(argBytes, width) =>
          signal := SHARED_RET(argBytes, width);
          return;
        case SysCall(id) =>
          signal := SHARED_SCALL(id, next);
          return;
        case SysArg(flags) =>
          if |sysArgs| >= 8 {
            return Fault;
          }
          sysArgs := sysArgs + [flags];
          instrPtr := next;
        case Push(values) =>
          if !Within(stack[..], sp + 1, |values|) {
            return Fault;
          }
          Put(sp + 1, values);
          sp := sp + |values|;
          instrPtr := next;
        case Load(area, offset, width) =>
          signal := LoadCells(area, offset, width, next);
          return;
        case Store(area, offset, width) =>
          signal := StoreCells(area, offset, width, next);
          return;
        case Compute(f) =>
          signal := StackOp(f, next);
          return;
        case BranchTo(onZero) =>
          if !Within(stack[..], sp - 1, 2) {
            return Fault;
          }
          sp := sp - 2;
          instrPtr := if (stack[sp + 1] == 0) == onZero then Unsigned(stack[sp + 2]) else next;
        case JumpTo =>
          if !Within(stack[..], sp, 1) {
            return Fault;
          }
          instrPtr := Unsigned(stack[sp]);
          sp := sp - 1;
        case External =>
          return Unsupported;
        case Unknown =>
          return Leave(100);
      }
      return Break;
    }

    // The loop's guard, fetch, dispatch and overflow check.
    method Turn() returns (signal: Signal)
      requires Valid()
      modifies this, stack
      ensures Valid() && Has(signal, Step(decoder, program, old(Contents())))
    {
      hide Execute, DecodeOperation, Fetch, Opcode, Advance;
      if !(instrPtr < program.codeEnd) {
        return Leave(0);
      }
      if !(0 <= instrPtr < |program.memory|) {
        return Fault;
      }
      var instr := Fetch(program.memory, program.beyond, instrPtr);
      DecodedIsWellFormed(decoder, instr);
      signal := Dispatch(DecodeOperation(decoder, instr), instrPtr + Advance(Opcode(decoder, instr)));
      if signal == Break && sp >= STACK_SIZE {
        return Leave(101);
      }
    }

    // The dispatch loop, for at most `turns` turns; `Break` when it has not ended by then.
    method StackInterpreterLoop(turns: nat) returns (signal: Signal)
      requires Valid()
      modifies this, stack
      ensures Valid() && Has(signal, Run(decoder, program, old(Contents()), turns))
    {
      hide Step;
      var n := turns;
      while n > 0
        invariant Valid() && 0 <= n <= turns
        invariant Run(decoder, program, old(Contents()), turns) == Run(decoder, program, Contents(), n)
      {
        signal := Turn();
        if signal != Break {
          return;
        }
        n := n - 1;
      }
      return Break;
    }
  }
}
