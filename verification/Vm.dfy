// The stack interpreter: one dispatch step over the stack cells, the stack pointer,
// the frame pointer and the instruction pointer, and runs of such steps.

module Vm {
  import opened Words
  import opened Types
  import opened Encoding
  import opened StackSet
  import opened StackCells
  import SysPrint

  const STACK_SIZE := 512

  // The overflow check comes after the step, so a step may write two cells past the end.
  const REACHABLE := STACK_SIZE + 2

  // `sp` and `frame` are cell indices, `ip` a byte offset into program memory. Only the
  // sizes of system call arguments collected so far are kept of `sysArgs`.
  datatype State = State(ip: int, cells: seq<int>, sp: int, frame: int, sysArgs: seq<nat>)

  datatype Outcome =
    | Running(s: State)
    | Exited(code: int)
    | Undefined     // outside the stack or program memory, unaligned, or a trapping division
    | Unmodelled    // a floating-point, string or heap instruction

  // `beyond` is what lies behind program memory; `codeEnd` is where the data begins.
  datatype Program = Program(memory: Bytes, beyond: nat -> bv8, codeEnd: nat)

  function InitialState(garbage: seq<int>): State
    requires |garbage| == REACHABLE
  {
    State(0, Poke(garbage, 0, [0xAC1D, 0xFACE]), 1, 0, [])
  }

  function Execute(o: Operation, s: State, next: int): Outcome {
    match o
    case Nop => Running(s.(ip := next))
    case Exit => Exited(0)
    case Jump(to) => Running(s.(ip := to))
    case Branch(onZero, to) =>
      if !Within(s.cells, s.sp, 1) then Undefined else
      Running(s.(ip := if (s.cells[s.sp] == 0) == onZero then to else next, sp := s.sp - 1))
    case Call(to) =>
      if !Within(s.cells, s.sp + 1, 2) then Undefined else
      Running(State(to, Poke(s.cells, s.sp + 1, [s.frame, Wrap32(next)]), s.sp + 2, s.sp + 1, s.sysArgs))
    case Return(argBytes, width) => ExecuteReturn(argBytes, width, s)
    case SysCall(id) => ExecuteSysCall(id, s, next)
    case SysArg(flags) =>
      if |s.sysArgs| >= 8 then Undefined else Running(s.(ip := next, sysArgs := s.sysArgs + [flags]))
    case Push(values) =>
      if !Within(s.cells, s.sp + 1, |values|) then Undefined else
      Running(s.(ip := next, cells := Poke(s.cells, s.sp + 1, values), sp := s.sp + |values|))
    case Load(area, offset, width) => ExecuteLoad(area, offset, width, s, next)
    case Store(area, offset, width) => ExecuteStore(area, offset, width, s, next)
    case Compute(f) => ExecuteCompute(f, s, next)
    case BranchTo(onZero) =>
      if !Within(s.cells, s.sp - 1, 2) then Undefined else
      Running(s.(ip := if (s.cells[s.sp - 1] == 0) == onZero then Unsigned(s.cells[s.sp]) else next, sp := s.sp - 2))
    case JumpTo =>
      if !Within(s.cells, s.sp, 1) then Undefined else
      Running(s.(ip := Unsigned(s.cells[s.sp]), sp := s.sp - 1))
    case External => Unmodelled
    case Unknown => Exited(100)
  }

  function ExecuteLoad(area: Area, offset: nat, width: nat, s: State, next: int): Outcome {
    var from := CellOf(area, s.frame, offset);
    if offset % 4 != 0 || !Within(s.cells, from, width) || !Within(s.cells, s.sp + 1, width) then Undefined else
    Running(s.(ip := next, cells := Poke(s.cells, s.sp + 1, Peek(s.cells, from, width)), sp := s.sp + width))
  }

  function ExecuteStore(area: Area, offset: nat, width: nat, s: State, next: int): Outcome {
    var to := CellOf(area, s.frame, offset);
    var from := s.sp - width + 1;
    if offset % 4 != 0 || !Within(s.cells, from, width) || !Within(s.cells, to, width) then Undefined else
    Running(s.(ip := next, cells := Poke(s.cells, to, Peek(s.cells, from, width)), sp := s.sp - width))
  }

  // The returned cells are read before the frame is left and written over its arguments.
  function ExecuteReturn(argBytes: nat, width: nat, s: State): Outcome {
    var from := s.sp - width + 1;
    var base := s.frame - argBytes / 4;
    if argBytes % 4 != 0 || !Within(s.cells, s.frame, 2) || !Within(s.cells, from, width)
       || !Within(s.cells, base, width) then
      Undefined
    else
      Running(State(s.cells[s.frame + 1], Poke(s.cells, base, Peek(s.cells, from, width)), base - 1 + width,
                    s.cells[s.frame], s.sysArgs))
  }

  function ExecuteSysCall(id: nat, s: State, next: int): Outcome {
    if id == 0 then
      var width := SysPrint.TypeWidths(s.sysArgs);
      if !Within(s.cells, s.sp, 1) || !Within(s.cells, s.sp - width + 1, width) then Undefined else
      Running(s.(ip := next, sp := s.sp - SysPrint.Popped(s.sysArgs), sysArgs := []))
    else if id == 1 || id == 6 then Unmodelled
    else Running(s.(ip := next, sysArgs := []))
  }

  function ExecuteCompute(f: Function, s: State, next: int): Outcome {
    var from := s.sp - Pops(f) + 1;
    if !Within(s.cells, from, Pops(f)) then Undefined else
    match Results(f, Peek(s.cells, from, Pops(f)))
    case None => Undefined
    case Some(values) =>
      if !Within(s.cells, from, |values|) then Undefined else
      Running(s.(ip := next, cells := Poke(s.cells, from, values), sp := from - 1 + |values|))
  }

  // The check behind the dispatch.
  function Checked(r: Outcome): Outcome {
    if r.Running? && r.s.sp >= STACK_SIZE then Exited(101) else r
  }

  // One turn of the interpreter's loop.
  function Step(d: Decoder, p: Program, s: State): Outcome {
    if s.ip >= p.codeEnd then Exited(0)
    else if !(0 <= s.ip < |p.memory|) then Undefined
    else
      var raw := Fetch(p.memory, p.beyond, s.ip);
      Checked(Execute(DecodeOperation(d, raw), s, s.ip + Advance(Opcode(d, raw))))
  }

  // Up to `n` turns.
  function Run(d: Decoder, p: Program, s: State, n: nat): Outcome
    decreases n
  {
    if n == 0 then Running(s) else
    match Step(d, p, s)
    case Running(s') => Run(d, p, s', n - 1)
    case r => r
  }

  //// Both builds are the same machine ////

  lemma StepsAgree(p: Program, s: State)
    ensures Step(Union, p, s) == Step(Bitmask, p, s)
  {
    hide Execute, DecodeOperation, Fetch, Opcode;
    if s.ip < p.codeEnd && 0 <= s.ip < |p.memory| {
      DecodersAgree(Fetch(p.memory, p.beyond, s.ip));
    }
  }

  lemma {:induction false} BuildsAgree(p: Program, s: State, n: nat)
    ensures Run(Union, p, s, n) == Run(Bitmask, p, s, n)
    decreases n
  {
    hide Step;
    if n > 0 {
      StepsAgree(p, s);
      match Step(Union, p, s)
      case Running(s') => BuildsAgree(p, s', n - 1);
      case _ =>
    }
  }

  //// Stack height ////

  predicate AllFit(cells: seq<int>) { forall i :: 0 <= i < |cells| ==> Is32(cells[i]) }

  // What holds of every reachable state, `top` bounding the stack pointer.
  predicate Sound(s: State, top: int) {
    |s.cells| == REACHABLE && AllFit(s.cells) && s.sp <= top && Is32(s.frame) && |s.sysArgs| <= 8
  }

  lemma PokeFits(cells: seq<int>, at: int, values: seq<int>)
    requires Within(cells, at, |values|)
    ensures AllFit(cells) && AllFit(values) ==> AllFit(Poke(cells, at, values))
  {
  }

  lemma PeekFits(cells: seq<int>, at: int, n: nat)
    requires Within(cells, at, n)
    ensures AllFit(cells) ==> AllFit(Peek(cells, at, n))
  {
  }

  predicate WellFormed(o: Operation) {
    match o
    case Push(values) => |values| <= 2 && AllFit(values)
    case Load(_, _, width) => 1 <= width <= 2
    case Store(_, _, width) => 1 <= width <= 2
    case Return(_, width) => width <= 2
    case _ => true
  }

  lemma ResultsFit(f: Function, popped: seq<int>)
    requires |popped| == Pops(f) && AllFit(popped) && Results(f, popped).Some?
    ensures AllFit(Results(f, popped).value)
  {
    hide Bitwise, Apply;
    if f.Operator? {
      var w := Width(f.wide);
      ApplyFits(f.op, f.wide, Value(popped[..w], f.wide), Value(popped[w..], f.wide));
    }
  }

  lemma ApplyFits(op: BinaryOp, wide: bool, a: int, b: int)
    requires Apply(op, wide, a, b).Some?
    ensures Is64(Apply(op, wide, a, b).value)
    ensures !wide || !IsArithmetic(op) ==> Is32(Apply(op, wide, a, b).value)
  {
    hide Quotient, Traps;
  }

  // Copying or computing cells and moving the pointer by at most two.
  lemma MovedKeeps(s: State, s': State, at: int, values: seq<int>)
    requires Sound(s, STACK_SIZE - 1) && Within(s.cells, at, |values|) && AllFit(values)
    requires s'.cells == Poke(s.cells, at, values) && s'.sp <= s.sp + 2 && Is32(s'.frame) && |s'.sysArgs| <= 8
    ensures Sound(s', STACK_SIZE + 1)
  {
    PokeFits(s.cells, at, values);
  }

  // A step writes at most two cells above the stack pointer, so it never leaves the
  // two spare cells, even when RET takes its frame pointer from an overwritten cell.
  lemma ExecuteKeeps(o: Operation, s: State, next: int)
    requires Sound(s, STACK_SIZE - 1) && WellFormed(o) && Execute(o, s, next).Running?
    ensures Sound(Execute(o, s, next).s, STACK_SIZE + 1)
    ensures !o.Return? ==> Execute(o, s, next).s.sp <= s.sp + 2
  {
    hide SysPrint.Popped, SysPrint.TypeWidths, Wrap32, ExecuteCompute, ExecuteReturn, Poke, Peek, CellOf, AllFit;
    hide Results;
    var s' := Execute(o, s, next).s;
    match o
    case Call(to) =>
      FitsTwo(s.frame, Wrap32(next));
      MovedKeeps(s, s', s.sp + 1, [s.frame, Wrap32(next)]);
    case Push(values) => MovedKeeps(s, s', s.sp + 1, values);
    case Load(area, offset, width) =>
      PeekFits(s.cells, CellOf(area, s.frame, offset), width);
      MovedKeeps(s, s', s.sp + 1, Peek(s.cells, CellOf(area, s.frame, offset), width));
    case Store(area, offset, width) =>
      PeekFits(s.cells, s.sp - width + 1, width);
      MovedKeeps(s, s', CellOf(area, s.frame, offset), Peek(s.cells, s.sp - width + 1, width));
    case Compute(f) => ComputeKeeps(f, s, next);
    case Return(argBytes, width) => ReturnKeeps(argBytes, width, s);
    case _ =>
  }

  lemma FitsTwo(a: int, b: int)
    requires Is32(a) && Is32(b)
    ensures AllFit([a, b])
  {
  }

  lemma ReturnKeeps(argBytes: nat, width: nat, s: State)
    requires Sound(s, STACK_SIZE - 1) && width <= 2 && ExecuteReturn(argBytes, width, s).Running?
    ensures Sound(ExecuteReturn(argBytes, width, s).s, STACK_SIZE + 1)
  {
    hide Poke, Peek;
    var values := Peek(s.cells, s.sp - width + 1, width);
    PeekFits(s.cells, s.sp - width + 1, width);
    PokeFits(s.cells, s.frame - argBytes / 4, values);
  }

  lemma PopsBound(f: Function)
    ensures 1 <= Pops(f) <= 4 && 1 <= Pushes(f) <= 2 && Pushes(f) <= Pops(f) + 1
  {
  }

  lemma ComputeKeeps(f: Function, s: State, next: int)
    requires Sound(s, STACK_SIZE - 1) && ExecuteCompute(f, s, next).Running?
    ensures Sound(ExecuteCompute(f, s, next).s, STACK_SIZE + 1)
    ensures ExecuteCompute(f, s, next).s.sp <= s.sp + 2
  {
    hide Results, Poke, Peek, Pops, Pushes, AllFit;
    PopsBound(f);
    var from := s.sp - Pops(f) + 1;
    var popped := Peek(s.cells, from, Pops(f));
    PeekFits(s.cells, from, Pops(f));
    ResultsFit(f, popped);
    MovedKeeps(s, ExecuteCompute(f, s, next).s, from, Results(f, popped).value);
  }

  lemma DecodedIsWellFormed(d: Decoder, raw: Bytes)
    requires |raw| == 13
    ensures WellFormed(DecodeOperation(d, raw))
  {
    hide Dispatch, DECODE_8, DECODE_32, DECODE_64, Opcode, WellFormed;
    DispatchIsWellFormed(Opcode(d, raw), DECODE_8(d, raw), DECODE_32(d, raw), DECODE_64(d, raw));
  }

  lemma DispatchIsWellFormed(opcode: bv8, c8: bv8, c32: bv32, c64: bv64)
    ensures WellFormed(Dispatch(opcode, c8, c32, c64))
  {
    hide Accesses, Arithmetics, BitStuff, Comparisons, Signed32, Signed64, Low, High;
  }

  // The overflow check therefore always comes in time: whenever another step begins the
  // stack pointer lies inside the stack.
  lemma {:induction false} HeightIsBounded(d: Decoder, p: Program, s: State, n: nat)
    requires Sound(s, STACK_SIZE - 1)
    ensures Run(d, p, s, n).Running? ==> Sound(Run(d, p, s, n).s, STACK_SIZE - 1)
    decreases n
  {
    hide Step, Sound;
    if n > 0 && Step(d, p, s).Running? {
      StepKeeps(d, p, s);
      HeightIsBounded(d, p, Step(d, p, s).s, n - 1);
    }
  }

  lemma StepKeeps(d: Decoder, p: Program, s: State)
    requires Sound(s, STACK_SIZE - 1) && Step(d, p, s).Running?
    ensures Sound(Step(d, p, s).s, STACK_SIZE - 1)
  {
    hide Execute, DecodeOperation;
    var raw := Fetch(p.memory, p.beyond, s.ip);
    DecodedIsWellFormed(d, raw);
    ExecuteKeeps(DecodeOperation(d, raw), s, s.ip + Advance(Opcode(d, raw)));
  }

  lemma InitialIsSound(garbage: seq<int>)
    requires |garbage| == REACHABLE && AllFit(garbage)
    ensures Sound(InitialState(garbage), STACK_SIZE - 1)
  {
  }
}
