// The stack machine as an assembly programmer sees it: instructions are numbered,
// labels name instruction numbers, and a call leaves behind the number of the
// instruction after it instead of an address.

module LabelMachine {
  import opened Options
  import opened StackSet
  import opened StackCells
  import opened Layout
  import SysPrint
  import Vm

  datatype Cell = Num(value: int) | Ret(index: nat)

  datatype State = State(pc: nat, cells: seq<Cell>, sp: int, frame: int, sysArgs: seq<nat>)

  datatype Outcome =
    | Running(s: State)
    | Exited(code: int)
    | Undefined
    | Unmodelled
    | Confused   // depends on the layout: a computed jump, arithmetic on a return point, a forged return

  // The instructions in order, and the number of the instruction each label stands before.
  datatype Code = Code(code: seq<Body>, positions: map<string, nat>)

  predicate IsCode(code: seq<Body>) { forall b :: b in code ==> b.Ins? && b.opcode <= LAST_OPCODE }

  predicate Jumps(opcode: bv8) { opcode == 0x02 || opcode == 0x03 || opcode == 0x55 || opcode == 0x56 }

  // Where a jump goes: only a plain label of the program will do.
  function Target(c: Code, argument: Option<Argument>): Option<nat> {
    match argument
    case Some(Name(name)) => if name in c.positions then Some(c.positions[name]) else None
    case _ => None
  }

  // An operand that does not depend on the layout: a number, or a register or system
  // function.
  function Constant(argument: Option<Argument>): Option<bv64> {
    match argument
    case Some(Name(name)) => if name in Predefined() then Some(ArgumentValue(Predefined(), argument)) else None
    case _ => Some(ArgumentValue(map[], argument))
  }

  predicate AllNum(cells: seq<Cell>) { forall i :: 0 <= i < |cells| ==> cells[i].Num? }

  function Values(cells: seq<Cell>): (values: seq<int>)
    requires AllNum(cells)
    ensures |values| == |cells| && forall i :: 0 <= i < |cells| ==> values[i] == cells[i].value
  {
    seq(|cells|, i requires 0 <= i < |cells| => cells[i].value)
  }

  function Nums(values: seq<int>): (cells: seq<Cell>)
    ensures |cells| == |values| && forall i :: 0 <= i < |values| ==> cells[i] == Num(values[i])
  {
    seq(|values|, i requires 0 <= i < |values| => Num(values[i]))
  }

  function Control(opcode: bv8, to: nat, s: State): Outcome {
    if opcode == 0x02 then Running(s.(pc := to))
    else if opcode == 0x03 then
      if !Within(s.cells, s.sp + 1, 2) then Undefined else
      Running(State(to, Poke(s.cells, s.sp + 1, [Num(s.frame), Ret(s.pc + 1)]), s.sp + 2, s.sp + 1, s.sysArgs))
    else
      if !Within(s.cells, s.sp, 1) then Undefined
      else if s.cells[s.sp].Ret? then Confused
      else
        var taken := (s.cells[s.sp].value == 0) == (opcode == 0x55);
        Running(s.(pc := if taken then to else s.pc + 1, sp := s.sp - 1))
  }

  // Cells are copied whatever they hold; only computing needs numbers.
  function Execute(o: Operation, s: State): Outcome {
    match o
    case Nop => Running(s.(pc := s.pc + 1))
    case Exit => Exited(0)
    case Return(argBytes, width) => ExecuteReturn(argBytes, width, s)
    case SysCall(id) => ExecuteSysCall(id, s)
    case SysArg(flags) =>
      if |s.sysArgs| >= 8 then Undefined else Running(s.(pc := s.pc + 1, sysArgs := s.sysArgs + [flags]))
    case Push(values) =>
      if !Within(s.cells, s.sp + 1, |values|) then Undefined else
      Running(s.(pc := s.pc + 1, cells := Poke(s.cells, s.sp + 1, Nums(values)), sp := s.sp + |values|))
    case Load(area, offset, width) => ExecuteLoad(area, offset, width, s)
    case Store(area, offset, width) => ExecuteStore(area, offset, width, s)
    case Compute(f) => ExecuteCompute(f, s)
    case External => Unmodelled
    case Unknown => Exited(100)
    case _ => Confused
  }

  function ExecuteLoad(area: Area, offset: nat, width: nat, s: State): Outcome {
    var from := CellOf(area, s.frame, offset);
    if offset % 4 != 0 || !Within(s.cells, from, width) || !Within(s.cells, s.sp + 1, width) then Undefined else
    Running(s.(pc := s.pc + 1, cells := Poke(s.cells, s.sp + 1, Peek(s.cells, from, width)), sp := s.sp + width))
  }

  function ExecuteStore(area: Area, offset: nat, width: nat, s: State): Outcome {
    var to := CellOf(area, s.frame, offset);
    var from := s.sp - width + 1;
    if offset % 4 != 0 || !Within(s.cells, from, width) || !Within(s.cells, to, width) then Undefined else
    Running(s.(pc := s.pc + 1, cells := Poke(s.cells, to, Peek(s.cells, from, width)), sp := s.sp - width))
  }

  function ExecuteReturn(argBytes: nat, width: nat, s: State): Outcome {
    var from := s.sp - width + 1;
    var base := s.frame - argBytes / 4;
    if argBytes % 4 != 0 || !Within(s.cells, s.frame, 2) || !Within(s.cells, from, width)
       || !Within(s.cells, base, width) then
      Undefined
    else if s.cells[s.frame].Ret? || s.cells[s.frame + 1].Num? then Confused
    else
      Running(State(s.cells[s.frame + 1].index, Poke(s.cells, base, Peek(s.cells, from, width)), base - 1 + width,
                    s.cells[s.frame].value, s.sysArgs))
  }

  function ExecuteSysCall(id: nat, s: State): Outcome {
    if id == 0 then
      var width := SysPrint.TypeWidths(s.sysArgs);
      if !Within(s.cells, s.sp, 1) || !Within(s.cells, s.sp - width + 1, width) then Undefined else
      Running(s.(pc := s.pc + 1, sp := s.sp - SysPrint.Popped(s.sysArgs), sysArgs := []))
    else if id == 1 || id == 6 then Unmodelled
    else Running(s.(pc := s.pc + 1, sysArgs := []))
  }

  function ExecuteCompute(f: Function, s: State): Outcome {
    var from := s.sp - Pops(f) + 1;
    if !Within(s.cells, from, Pops(f)) then Undefined else
    var popped := Peek(s.cells, from, Pops(f));
    if !AllNum(popped) then Confused else
    match Results(f, Values(popped))
    case None => Undefined
    case Some(values) =>
      if !Within(s.cells, from, |values|) then Undefined else
      Running(s.(pc := s.pc + 1, cells := Poke(s.cells, from, Nums(values)), sp := from - 1 + |values|))
  }

  function Checked(r: Outcome): Outcome {
    if r.Running? && r.s.sp >= Vm.STACK_SIZE then Exited(101) else r
  }

  function Step(c: Code, s: State): Outcome
    requires IsCode(c.code)
  {
    if s.pc >= |c.code| then Exited(0) else
    var i := c.code[s.pc];
    if Jumps(i.opcode) then
      match Target(c, i.argument)
      case None => Confused
      case Some(to) => Checked(Control(i.opcode, to, s))
    else
      match Constant(i.argument)
      case None => Confused
      case Some(v) => Checked(Execute(Meaning(i.opcode, v), s))
  }

  function Run(c: Code, s: State, n: nat): Outcome
    requires IsCode(c.code)
    decreases n
  {
    if n == 0 then Running(s) else
    match Step(c, s)
    case Running(s') => Run(c, s', n - 1)
    case r => r
  }

  function InitialState(garbage: seq<int>): State
    requires |garbage| == Vm.REACHABLE
  {
    State(0, Nums(Poke(garbage, 0, [0xAC1D, 0xFACE])), 1, 0, [])
  }

  //// The program of a source text ////

  function CodeOf(lines: seq<Line>): (code: seq<Body>)
    ensures forall b :: b in code ==> b.Ins?
    decreases |lines|
  {
    if lines == [] then [] else
    var n := |lines| - 1;
    CodeOf(lines[..n]) + (if lines[n].body.Ins? then [lines[n].body] else [])
  }

  function PositionsOf(lines: seq<Line>): map<string, nat>
    decreases |lines|
  {
    if lines == [] then map[] else
    var n := |lines| - 1;
    match lines[n].labelName
    case None => PositionsOf(lines[..n])
    case Some(name) => PositionsOf(lines[..n])[name := |CodeOf(lines[..n])|]
  }

  function ProgramOf(lines: seq<Line>): Code { Code(CodeOf(lines), PositionsOf(lines)) }

  lemma {:induction false} CodeIsKnown(lines: seq<Line>)
    requires AllKnown(lines)
    ensures IsCode(CodeOf(lines))
    decreases |lines|
  {
    if lines != [] {
      CodeIsKnown(lines[..|lines| - 1]);
      assert Known(lines[|lines| - 1]);
    }
  }

  //// When a run stops being a matter of labels ////

  predicate InRange(s: State, from: int, n: nat) { n == 0 || (0 <= from && from + n <= |s.cells|) }

  // Computing is confused by a return point among its operands, returning by a frame whose
  // links are not a number and a return point; jumps to computed addresses always are.
  // Nothing else is.
  lemma ExecuteConfused(o: StackSet.Operation, s: State)
    ensures Execute(o, s) == Confused <==>
            match o
            case Compute(f) =>
              InRange(s, s.sp - Pops(f) + 1, Pops(f)) && exists k :: s.sp - Pops(f) < k <= s.sp && s.cells[k].Ret?
            case Return(argBytes, width) =>
              argBytes % 4 == 0 && InRange(s, s.frame, 2) && InRange(s, s.sp - width + 1, width)
              && InRange(s, s.frame - argBytes / 4, width) && (s.cells[s.frame].Ret? || s.cells[s.frame + 1].Num?)
            case Jump(_) => true
            case Branch(_, _) => true
            case Call(_) => true
            case BranchTo(_) => true
            case JumpTo => true
            case _ => false
  {
    hide Results, Poke;
    if o.Compute? {
      var from := s.sp - Pops(o.f) + 1;
      Vm.PopsBound(o.f);
      hide Pops;
      if Within(s.cells, from, Pops(o.f)) {
        var popped := Peek(s.cells, from, Pops(o.f));
        assert forall i :: 0 <= i < |popped| ==> popped[i] == s.cells[from + i];
        if k :| s.sp - Pops(o.f) < k <= s.sp && s.cells[k].Ret? { assert popped[k - from].Ret?; }
      }
    }
  }

  // A jump goes wrong in this sense only when its operand is no label of the program, or
  // when a branch looks at a return point.
  lemma JumpConfused(c: Code, s: State, i: Body)
    requires IsCode(c.code) && s.pc < |c.code| && i == c.code[s.pc]
    requires i.opcode == 0x02 || i.opcode == 0x03 || i.opcode == 0x55 || i.opcode == 0x56
    ensures Step(c, s) == Confused <==>
            !(exists name :: name in c.positions && i.argument == Some(Name(name)))
            || (i.opcode != 0x02 && i.opcode != 0x03 && InRange(s, s.sp, 1) && s.cells[s.sp].Ret?)
  {
    hide Execute, Meaning, Constant, Poke;
    assert Jumps(i.opcode);
    assert Target(c, i.argument).Some? <==> exists name :: name in c.positions && i.argument == Some(Name(name));
    hide Target;
  }

  // Any other instruction does when its operand is a name that is not predefined, or when
  // its operation is confused.
  lemma PlainConfused(c: Code, s: State, i: Body)
    requires IsCode(c.code) && s.pc < |c.code| && i == c.code[s.pc]
    requires i.opcode != 0x02 && i.opcode != 0x03 && i.opcode != 0x55 && i.opcode != 0x56
    ensures Constant(i.argument).None? <==> exists name :: name !in Predefined() && i.argument == Some(Name(name))
    ensures Step(c, s) == Confused <==>
            Constant(i.argument).None? || Execute(Meaning(i.opcode, Constant(i.argument).value), s) == Confused
  {
    hide Execute, Meaning, ArgumentValue, Predefined, Target;
    assert !Jumps(i.opcode);
    assert Constant(i.argument).None? <==> exists name :: name !in Predefined() && i.argument == Some(Name(name));
    hide Constant;
  }
}
