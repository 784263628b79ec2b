// Running assembled bytes simulates the labelled program step for step: the states
// correspond cell by cell, and `instrPtr` is the address of the current instruction.

module Simulation {
  import opened Words
  import opened Encoding
  import opened StackSet
  import opened StackCells
  import opened Layout
  import opened LabelMachine
  import SysPrint
  import Vm

  // The address of instruction i.
  function AddressOf(code: seq<Body>, i: nat): nat
    requires i <= |code|
  {
    Sizes(code[..i])
  }

  //// Corresponding states ////

  function CellValue(code: seq<Body>, c: Cell): int {
    match c
    case Num(v) => v
    case Ret(i) => if i <= |code| then AddressOf(code, i) else 0
  }

  function CellValues(code: seq<Body>, cells: seq<Cell>): (values: seq<int>)
    ensures |values| == |cells| && forall i :: 0 <= i < |cells| ==> values[i] == CellValue(code, cells[i])
  {
    seq(|cells|, i requires 0 <= i < |cells| => CellValue(code, cells[i]))
  }

  predicate ReturnsInside(code: seq<Body>, cells: seq<Cell>) {
    forall i :: 0 <= i < |cells| && cells[i].Ret? ==> cells[i].index <= |code|
  }

  // Everything but the program counter.
  predicate SameData(code: seq<Body>, t: State, s: Vm.State) {
    s.cells == CellValues(code, t.cells) && s.sp == t.sp && s.frame == t.frame && s.sysArgs == t.sysArgs
    && ReturnsInside(code, t.cells)
  }

  // `ip` stands for instruction number `pc`; past the last one, any address from the
  // end of the code on will do.
  predicate SamePlace(code: seq<Body>, pc: nat, ip: int) {
    pc <= |code| && (if pc < |code| then ip == AddressOf(code, pc) else ip >= Sizes(code))
  }

  predicate Corresponds(code: seq<Body>, t: State, s: Vm.State) {
    SamePlace(code, t.pc, s.ip) && SameData(code, t, s)
  }

  predicate SameOutcome(code: seq<Body>, r: Outcome, r': Vm.Outcome) {
    match r
    case Running(t) => r'.Running? && Corresponds(code, t, r'.s)
    case Exited(e) => r' == Vm.Exited(e)
    case Undefined => r' == Vm.Undefined
    case Unmodelled => r' == Vm.Unmodelled
    case Confused => true
  }

  //// Cells ////

  lemma PeekMaps(code: seq<Body>, cells: seq<Cell>, at: int, n: nat)
    requires Within(cells, at, n)
    ensures Peek(CellValues(code, cells), at, n) == CellValues(code, Peek(cells, at, n))
  {
    hide CellValue;
  }

  lemma PokeMaps(code: seq<Body>, cells: seq<Cell>, at: int, values: seq<Cell>)
    requires Within(cells, at, |values|)
    ensures Poke(CellValues(code, cells), at, CellValues(code, values)) == CellValues(code, Poke(cells, at, values))
    ensures ReturnsInside(code, cells) && ReturnsInside(code, values) ==> ReturnsInside(code, Poke(cells, at, values))
  {
    hide CellValue;
  }

  lemma PeekInside(code: seq<Body>, cells: seq<Cell>, at: int, n: nat)
    requires Within(cells, at, n) && ReturnsInside(code, cells)
    ensures ReturnsInside(code, Peek(cells, at, n))
  {
  }

  lemma NumsMap(code: seq<Body>, values: seq<int>)
    ensures CellValues(code, Nums(values)) == values && ReturnsInside(code, Nums(values))
  {
    hide AddressOf;
  }

  lemma ValuesMap(code: seq<Body>, cells: seq<Cell>)
    requires AllNum(cells)
    ensures CellValues(code, cells) == Values(cells)
  {
    hide AddressOf;
  }

  // Writing corresponding cells keeps the states in correspondence.
  lemma PokeCorresponds(code: seq<Body>, t: State, s: Vm.State, at: int, cells: seq<Cell>, values: seq<int>)
    requires SameData(code, t, s) && values == CellValues(code, cells) && ReturnsInside(code, cells)
    requires Within(t.cells, at, |cells|)
    ensures Poke(s.cells, at, values) == CellValues(code, Poke(t.cells, at, cells))
    ensures ReturnsInside(code, Poke(t.cells, at, cells))
  {
    PokeMaps(code, t.cells, at, cells);
  }

  //// Single operations ////

  lemma LoadCorresponds(code: seq<Body>, area: Area, offset: nat, width: nat, t: State, s: Vm.State, next: int)
    requires SameData(code, t, s) && SamePlace(code, t.pc + 1, next)
    ensures SameOutcome(code, ExecuteLoad(area, offset, width, t), Vm.ExecuteLoad(area, offset, width, s, next))
  {
    hide SamePlace, CellValues, Poke, Peek, ReturnsInside;
    var from := CellOf(area, t.frame, offset);
    if offset % 4 == 0 && Within(t.cells, from, width) && Within(t.cells, t.sp + 1, width) {
      PeekMaps(code, t.cells, from, width);
      PeekInside(code, t.cells, from, width);
      PokeCorresponds(code, t, s, t.sp + 1, Peek(t.cells, from, width), Peek(s.cells, from, width));
    }
  }

  lemma StoreCorresponds(code: seq<Body>, area: Area, offset: nat, width: nat, t: State, s: Vm.State, next: int)
    requires SameData(code, t, s) && SamePlace(code, t.pc + 1, next)
    ensures SameOutcome(code, ExecuteStore(area, offset, width, t), Vm.ExecuteStore(area, offset, width, s, next))
  {
    hide SamePlace, CellValues, Poke, Peek, ReturnsInside;
    var to := CellOf(area, t.frame, offset);
    var from := t.sp - width + 1;
    if offset % 4 == 0 && Within(t.cells, from, width) && Within(t.cells, to, width) {
      PeekMaps(code, t.cells, from, width);
      PeekInside(code, t.cells, from, width);
      PokeCorresponds(code, t, s, to, Peek(t.cells, from, width), Peek(s.cells, from, width));
    }
  }

  lemma ComputeCorresponds(code: seq<Body>, f: Function, t: State, s: Vm.State, next: int)
    requires SameData(code, t, s) && SamePlace(code, t.pc + 1, next)
    ensures SameOutcome(code, ExecuteCompute(f, t), Vm.ExecuteCompute(f, s, next))
  {
    hide SamePlace, CellValues, Poke, Peek, ReturnsInside, Results, Pops, AllNum, Within;
    var from := t.sp - Pops(f) + 1;
    if Within(t.cells, from, Pops(f)) {
      var popped := Peek(t.cells, from, Pops(f));
      PeekMaps(code, t.cells, from, Pops(f));
      WithinBoth(code, t, s, from, Pops(f));
      if AllNum(popped) {
        ValuesMap(code, popped);
        match Results(f, Values(popped))
        case None =>
        case Some(values) => ResultsCorrespond(code, t, s, from, values, next);
      }
    } else {
      WithinBoth(code, t, s, from, Pops(f));
    }
  }

  lemma WithinBoth(code: seq<Body>, t: State, s: Vm.State, at: int, n: nat)
    requires SameData(code, t, s)
    ensures Within(t.cells, at, n) <==> Within(s.cells, at, n)
  {
  }

  lemma ResultsCorrespond(code: seq<Body>, t: State, s: Vm.State, from: int, values: seq<int>, next: int)
    requires SameData(code, t, s) && SamePlace(code, t.pc + 1, next)
    ensures Within(t.cells, from, |values|) <==> Within(s.cells, from, |values|)
    ensures Within(t.cells, from, |values|) ==>
              Corresponds(code,
                          t.(pc := t.pc + 1, cells := Poke(t.cells, from, Nums(values)), sp := from - 1 + |values|),
                          s.(ip := next, cells := Poke(s.cells, from, values), sp := from - 1 + |values|))
  {
    hide SamePlace, CellValues, Poke, ReturnsInside;
    NumsMap(code, values);
    if Within(t.cells, from, |values|) {
      PokeCorresponds(code, t, s, from, Nums(values), values);
    }
  }

  lemma LinkCells(code: seq<Body>, t: State, s: Vm.State)
    requires SameData(code, t, s) && Within(t.cells, t.frame, 2)
    requires t.cells[t.frame].Num? && t.cells[t.frame + 1].Ret?
    ensures s.cells[t.frame] == t.cells[t.frame].value
    ensures SamePlace(code, t.cells[t.frame + 1].index, s.cells[t.frame + 1])
  {
    assert s.cells[t.frame] == CellValue(code, t.cells[t.frame]);
    assert s.cells[t.frame + 1] == CellValue(code, t.cells[t.frame + 1]);
    if t.cells[t.frame + 1].index == |code| { assert code[..|code|] == code; }
  }

  lemma ReturnCorresponds(code: seq<Body>, argBytes: nat, width: nat, t: State, s: Vm.State)
    requires SameData(code, t, s)
    ensures SameOutcome(code, ExecuteReturn(argBytes, width, t), Vm.ExecuteReturn(argBytes, width, s))
  {
    hide Poke, Peek, ReturnsInside, CellValues, SamePlace;
    var from := t.sp - width + 1;
    var base := t.frame - argBytes / 4;
    if argBytes % 4 == 0 && Within(t.cells, t.frame, 2) && Within(t.cells, from, width) && Within(t.cells, base, width)
       && t.cells[t.frame].Num? && t.cells[t.frame + 1].Ret? {
      PeekMaps(code, t.cells, from, width);
      PeekInside(code, t.cells, from, width);
      PokeCorresponds(code, t, s, base, Peek(t.cells, from, width), Peek(s.cells, from, width));
      LinkCells(code, t, s);
    }
  }

  // Straight-line operations, system calls and returns.
  lemma ExecuteCorresponds(code: seq<Body>, o: Operation, t: State, s: Vm.State, next: int)
    requires SameData(code, t, s)
    requires !o.Exit? && !o.Return? ==> SamePlace(code, t.pc + 1, next)
    ensures SameOutcome(code, Execute(o, t), Vm.Execute(o, s, next))
  {
    hide SamePlace, CellValues, Poke, ReturnsInside, SysPrint.TypeWidths, SysPrint.Popped;
    hide ExecuteLoad, ExecuteStore, ExecuteReturn, ExecuteCompute;
    hide Vm.ExecuteLoad, Vm.ExecuteStore, Vm.ExecuteReturn, Vm.ExecuteCompute;
    match o
    case Push(values) =>
      NumsMap(code, values);
      if Within(t.cells, t.sp + 1, |values|) {
        PokeCorresponds(code, t, s, t.sp + 1, Nums(values), values);
      }
    case Load(area, offset, width) => LoadCorresponds(code, area, offset, width, t, s, next);
    case Store(area, offset, width) => StoreCorresponds(code, area, offset, width, t, s, next);
    case Compute(f) => ComputeCorresponds(code, f, t, s, next);
    case Return(argBytes, width) => ReturnCorresponds(code, argBytes, width, t, s);
    case _ =>
  }

  // The operation a jump instruction with target address `a` stands for.
  function JumpOperation(opcode: bv8, a: nat): Operation
    requires Jumps(opcode)
  {
    if opcode == 0x02 then Jump(a) else if opcode == 0x03 then Call(a) else Branch(opcode == 0x55, a)
  }

  // JMP, CALL and the branches, when the label and the address name the same place.
  lemma ControlCorresponds(code: seq<Body>, opcode: bv8, to: nat, a: nat, t: State, s: Vm.State, next: int)
    requires Jumps(opcode) && SameData(code, t, s) && SamePlace(code, to, a)
    requires t.pc < |code| && (opcode != 0x02 ==> next == AddressOf(code, t.pc + 1) < TWO31)
    ensures SameOutcome(code, Control(opcode, to, t), Vm.Execute(JumpOperation(opcode, a), s, next))
  {
    hide Poke, Sizes;
    if t.pc + 1 == |code| { assert code[..|code|] == code; }
    if opcode == 0x03 {
      if Within(t.cells, t.sp + 1, 2) {
        var cells := [Num(t.frame), Ret(t.pc + 1)];
        assert CellValues(code, cells) == [s.frame, Wrap32(next)];
        PokeCorresponds(code, t, s, t.sp + 1, cells, [s.frame, Wrap32(next)]);
      }
    }
  }

  //// Programs ////

  // Instruction i of the code lies at its address with operand bits[i], which names the
  // same place or constant as its argument.
  predicate Holds(c: Code, p: Vm.Program, i: nat, bits: bv64)
    requires i < |c.code| && IsCode(c.code)
  {
    var b := c.code[i];
    var at := AddressOf(c.code, i);
    && at + ByteSize(b.opcode) <= |p.memory|
    && p.memory[at..at + ByteSize(b.opcode)] == InstructionBytes(b.opcode, bits)
    && (Target(c, b.argument).Some? ==> SamePlace(c.code, Target(c, b.argument).value, Low32(bits) as int))
    && (Constant(b.argument).Some? ==> bits == Constant(b.argument).value)
  }

  predicate Loaded(c: Code, p: Vm.Program, bits: seq<bv64>) {
    && IsCode(c.code) && |bits| == |c.code|
    && p.codeEnd == Sizes(c.code) < TWO31
    && forall i :: 0 <= i < |c.code| ==> Holds(c, p, i, bits[i])
  }

  lemma {:induction false} AddressesRise(code: seq<Body>, i: nat)
    requires i < |code|
    ensures AddressOf(code, i + 1) == AddressOf(code, i) + SizeOf(code[i])
    ensures AddressOf(code, i + 1) <= Sizes(code)
    decreases |code|
  {
    assert code[..i + 1][..i] == code[..i];
    if i + 1 == |code| {
      assert code[..i + 1] == code;
    } else {
      var n := |code| - 1;
      AddressesRise(code[..n], i);
      assert code[..n][..i] == code[..i] && code[..n][..i + 1] == code[..i + 1];
    }
  }

  lemma JumpMeaning(opcode: bv8, bits: bv64)
    requires Jumps(opcode)
    ensures Meaning(opcode, bits) == JumpOperation(opcode, Low32(bits) as nat)
  {
    hide Low8, Low32;
  }

  lemma StraightMeaning(opcode: bv8, bits: bv64)
    requires opcode <= LAST_OPCODE && !Jumps(opcode) && Advance(opcode) == 0
    ensures var o := Meaning(opcode, bits); o.Exit? || o.Return? || o.JumpTo?
  {
    hide Low8, Low32;
  }

  lemma {:induction false} StepCorresponds(d: Decoder, c: Code, p: Vm.Program, bits: seq<bv64>, t: State, s: Vm.State)
    requires Loaded(c, p, bits) && Corresponds(c.code, t, s)
    ensures SameOutcome(c.code, Step(c, t), Vm.Step(d, p, s))
  {
    hide Execute, Vm.Execute, Control, SameData, Fetch, DecodeOperation, Opcode, InstructionBytes, Constant, Target,
      Meaning, AddressOf, Advance;
    if t.pc < |c.code| {
      var b := c.code[t.pc];
      var size := ByteSize(b.opcode);
      assert Holds(c, p, t.pc, bits[t.pc]);
      AddressesRise(c.code, t.pc);
      FetchSplits(p.memory, p.beyond, s.ip, size);
      var raw := Fetch(p.memory, p.beyond, s.ip);
      DecodesToMeaning(d, b.opcode, bits[t.pc], raw[size..]);
      DispatchCorresponds(c, b, bits[t.pc], t, s, s.ip + Advance(b.opcode));
    }
  }

  // One turn, once the instruction is decoded.
  lemma DispatchCorresponds(c: Code, b: Body, bits: bv64, t: State, s: Vm.State, next: int)
    requires IsCode(c.code) && t.pc < |c.code| && b == c.code[t.pc] && SameData(c.code, t, s)
    requires Target(c, b.argument).Some? ==> SamePlace(c.code, Target(c, b.argument).value, Low32(bits) as int)
    requires Constant(b.argument).Some? ==> bits == Constant(b.argument).value
    requires s.ip == AddressOf(c.code, t.pc) && Sizes(c.code) < TWO31 && next == s.ip + Advance(b.opcode)
    ensures SameOutcome(c.code, Step(c, t), Vm.Checked(Vm.Execute(Meaning(b.opcode, bits), s, next)))
  {
    hide Execute, Vm.Execute, Control, Meaning, Constant, Target, CellValues;
    var code := c.code;
    AddressesRise(code, t.pc);
    TablesAgree(b.opcode);
    if Jumps(b.opcode) {
      if Target(c, b.argument).Some? {
        JumpMeaning(b.opcode, bits);
        ControlCorresponds(code, b.opcode, Target(c, b.argument).value, Low32(bits) as nat, t, s, next);
      }
    } else if Constant(b.argument).Some? {
      var o := Meaning(b.opcode, bits);
      if Advance(b.opcode) == 0 {
        StraightMeaning(b.opcode, bits);
        if o.JumpTo? {
          assert Execute(o, t) == Confused by { JumpToConfuses(o, t); }
        } else {
          ExecuteCorresponds(code, o, t, s, next);
        }
      } else {
        if t.pc + 1 == |code| { assert code[..|code|] == code; }
        ExecuteCorresponds(code, o, t, s, next);
      }
    }
  }

  lemma JumpToConfuses(o: Operation, t: State)
    requires o.JumpTo?
    ensures Execute(o, t) == Confused
  {
  }

  // Simulation: as long as the labelled run is not confused, the bytes do the same for
  // any number of steps, whichever decoder is built in and whatever lies behind the
  // program in memory.
  lemma {:induction false} RunCorresponds(d: Decoder, c: Code, p: Vm.Program, bits: seq<bv64>, t: State, s: Vm.State,
                                          n: nat)
    requires Loaded(c, p, bits) && Corresponds(c.code, t, s)
    ensures SameOutcome(c.code, Run(c, t, n), Vm.Run(d, p, s, n))
    decreases n
  {
    hide Loaded, Corresponds, Step, Vm.Step, IsCode;
    if n > 0 {
      StepCorresponds(d, c, p, bits, t, s);
      assert IsCode(c.code) by { LoadedIsCode(c, p, bits); }
      match Step(c, t)
      case Running(t') => RunCorresponds(d, c, p, bits, t', Vm.Step(d, p, s).s, n - 1);
      case _ =>
    }
  }

  lemma LoadedIsCode(c: Code, p: Vm.Program, bits: seq<bv64>)
    requires Loaded(c, p, bits)
    ensures IsCode(c.code)
  {
  }

  lemma InitialCorresponds(code: seq<Body>, garbage: seq<int>)
    requires |garbage| == Vm.REACHABLE
    ensures Corresponds(code, InitialState(garbage), Vm.InitialState(garbage))
  {
    hide Poke;
    NumsMap(code, Poke(garbage, 0, [0xAC1D, 0xFACE]));
  }
}
