// What each opcode of the interpreter does, told in cells and integers: which cells it
// reads, what it writes, and where `sp` and `instrPtr` go.

module Instructions {
  import opened Words
  import opened Types
  import opened StackSet
  import opened StackCells
  import opened Vm
  import Encoding
  import SysPrint

  // The run goes on at `ip` with the stack pointer at `sp`; the cells from `at` on are these,
  // and nothing else has changed.
  predicate Leaves(r: Outcome, s: State, ip: int, sp: int, at: int, cells: seq<int>) {
    && r.Running? && r.s.ip == ip && r.s.sp == sp && r.s.frame == s.frame && r.s.sysArgs == s.sysArgs
    && |r.s.cells| == |s.cells|
    && forall i :: 0 <= i < |s.cells| ==>
         r.s.cells[i] == if at <= i < at + |cells| then cells[i - at] else s.cells[i]
  }

  predicate Inside(s: State, from: int, n: nat) { 0 <= from && from + n <= |s.cells| }

  //// Loads and stores ////

  // A local lies `offset` bytes behind the cell above the frame pointer, an argument
  // `offset` bytes below the frame pointer.
  function VariableCell(isLocal: bool, frame: int, offset: int): int {
    if isLocal then frame + 1 + offset / 4 else frame - offset / 4
  }

  lemma AccessOf(opcode: bv8, c8: bv8, c32: bv32, c64: bv64)
    requires 0x13 <= opcode <= 0x1A
    ensures var isLocal := opcode == 0x13 || opcode == 0x14 || opcode == 0x17 || opcode == 0x18;
            var area := if isLocal then Locals else Arguments;
            var width := if opcode == 0x13 || opcode == 0x15 || opcode == 0x17 || opcode == 0x19 then 1 else 2;
            Dispatch(opcode, c8, c32, c64)
            == if opcode <= 0x16 then Load(area, c8 as nat, width) else Store(area, c8 as nat, width)
  {
    hide Arithmetics, BitStuff, Comparisons, General, Signed32, Signed64, Cells;
  }

  lemma PeekIs(cells: seq<int>, at: int, n: nat)
    requires 1 <= n <= 2 && Within(cells, at, n)
    ensures Peek(cells, at, n) == if n == 1 then [cells[at]] else [cells[at], cells[at + 1]]
  {
  }

  lemma LoadRuns(area: Area, offset: nat, width: nat, s: State, next: int)
    requires 1 <= width <= 2
    ensures var r, from := Execute(Load(area, offset, width), s, next), VariableCell(area == Locals, s.frame, offset);
            if offset % 4 == 0 && Inside(s, from, width) && Inside(s, s.sp + 1, width) then
              Leaves(r, s, next, s.sp + width, s.sp + 1,
                     if width == 1 then [s.cells[from]] else [s.cells[from], s.cells[from + 1]])
            else r == Undefined
  {
    hide Poke, Peek;
    var from := CellOf(area, s.frame, offset);
    if Within(s.cells, from, width) { PeekIs(s.cells, from, width); }
  }

  lemma StoreRuns(area: Area, offset: nat, width: nat, s: State, next: int)
    requires 1 <= width <= 2
    ensures var r, to := Execute(Store(area, offset, width), s, next), VariableCell(area == Locals, s.frame, offset);
            if offset % 4 == 0 && Inside(s, s.sp - width + 1, width) && Inside(s, to, width) then
              Leaves(r, s, next, s.sp - width, to,
                     if width == 1 then [s.cells[s.sp]] else [s.cells[s.sp - 1], s.cells[s.sp]])
            else r == Undefined
  {
    hide Poke, Peek;
    var from := s.sp - width + 1;
    if Within(s.cells, from, width) { PeekIs(s.cells, from, width); }
  }

  // LDL, LDL.64, LDA, LDA.64: the variable's cells are pushed.
  lemma LoadExact(opcode: bv8, c8: bv8, c32: bv32, c64: bv64, s: State, next: int)
    requires 0x13 <= opcode <= 0x16
    ensures var r, offset := Execute(Dispatch(opcode, c8, c32, c64), s, next), c8 as int;
            var from := VariableCell(opcode == 0x13 || opcode == 0x14, s.frame, offset);
            var n := if opcode == 0x13 || opcode == 0x15 then 1 else 2;
            if offset % 4 == 0 && Inside(s, from, n) && Inside(s, s.sp + 1, n) then
              Leaves(r, s, next, s.sp + n, s.sp + 1,
                     if n == 1 then [s.cells[from]] else [s.cells[from], s.cells[from + 1]])
            else r == Undefined
  {
    AccessOf(opcode, c8, c32, c64);
    hide Execute, Dispatch, VariableCell;
    LoadRuns(if opcode == 0x13 || opcode == 0x14 then Locals else Arguments, c8 as nat,
             if opcode == 0x13 || opcode == 0x15 then 1 else 2, s, next);
  }

  // STL, STL.64, STA, STA.64: the topmost cells go to the variable.
  lemma StoreExact(opcode: bv8, c8: bv8, c32: bv32, c64: bv64, s: State, next: int)
    requires 0x17 <= opcode <= 0x1A
    ensures var r, offset := Execute(Dispatch(opcode, c8, c32, c64), s, next), c8 as int;
            var to := VariableCell(opcode == 0x17 || opcode == 0x18, s.frame, offset);
            var n := if opcode == 0x17 || opcode == 0x19 then 1 else 2;
            if offset % 4 == 0 && Inside(s, s.sp - n + 1, n) && Inside(s, to, n) then
              Leaves(r, s, next, s.sp - n, to, if n == 1 then [s.cells[s.sp]] else [s.cells[s.sp - 1], s.cells[s.sp]])
            else r == Undefined
  {
    AccessOf(opcode, c8, c32, c64);
    hide Execute, Dispatch, VariableCell;
    StoreRuns(if opcode == 0x17 || opcode == 0x18 then Locals else Arguments, c8 as nat,
              if opcode == 0x17 || opcode == 0x19 then 1 else 2, s, next);
  }

  //// Computing ////

  // Every computing opcode with what it computes, 32-bit form first.
  lemma ComputeOf(opcode: bv8, c8: bv8, c32: bv32, c64: bv64)
    ensures opcode == 0x1B ==> Dispatch(opcode, c8, c32, c64) == Compute(Operator(ADD, false))
    ensures opcode == 0x1C ==> Dispatch(opcode, c8, c32, c64) == Compute(Operator(ADD, true))
    ensures opcode == 0x1F ==> Dispatch(opcode, c8, c32, c64) == Compute(Operator(SUB, false))
    ensures opcode == 0x20 ==> Dispatch(opcode, c8, c32, c64) == Compute(Operator(SUB, true))
    ensures opcode == 0x23 ==> Dispatch(opcode, c8, c32, c64) == Compute(Operator(MUL, false))
    ensures opcode == 0x24 ==> Dispatch(opcode, c8, c32, c64) == Compute(Operator(MUL, true))
    ensures opcode == 0x27 ==> Dispatch(opcode, c8, c32, c64) == Compute(Operator(DIV, false))
    ensures opcode == 0x28 ==> Dispatch(opcode, c8, c32, c64) == Compute(Operator(DIV, true))
    ensures opcode == 0x2B ==> Dispatch(opcode, c8, c32, c64) == Compute(Inv(false))
    ensures opcode == 0x2D ==> Dispatch(opcode, c8, c32, c64) == Compute(Negate(false))
    ensures opcode == 0x2E ==> Dispatch(opcode, c8, c32, c64) == Compute(Negate(true))
    ensures opcode == 0x37 ==> Dispatch(opcode, c8, c32, c64) == Compute(Operator(OR, false))
    ensures opcode == 0x38 ==> Dispatch(opcode, c8, c32, c64) == Compute(Operator(AND, false))
    ensures opcode == 0x39 ==> Dispatch(opcode, c8, c32, c64) == Compute(Cpz(false))
    ensures opcode == 0x3A ==> Dispatch(opcode, c8, c32, c64) == Compute(Cpz(true))
    ensures opcode == 0x5A ==> Dispatch(opcode, c8, c32, c64) == Compute(IntToLong)
    ensures opcode == 0x5E ==> Dispatch(opcode, c8, c32, c64) == Compute(LongToInt)
  {
    hide General, Accesses, Comparisons, Signed32, Signed64, Cells;
  }

  lemma BitsOf(opcode: bv8, c8: bv8, c32: bv32, c64: bv64)
    ensures opcode == 0x31 ==> Dispatch(opcode, c8, c32, c64) == Compute(Bits(BOR, false))
    ensures opcode == 0x32 ==> Dispatch(opcode, c8, c32, c64) == Compute(Bits(BOR, true))
    ensures opcode == 0x33 ==> Dispatch(opcode, c8, c32, c64) == Compute(Bits(BXOR, false))
    ensures opcode == 0x34 ==> Dispatch(opcode, c8, c32, c64) == Compute(Bits(BXOR, true))
    ensures opcode == 0x35 ==> Dispatch(opcode, c8, c32, c64) == Compute(Bits(BAND, false))
    ensures opcode == 0x36 ==> Dispatch(opcode, c8, c32, c64) == Compute(Bits(BAND, true))
  {
    hide General, Accesses, Arithmetics, Comparisons, Signed32, Signed64, Cells;
  }

  lemma ComparisonOf(opcode: bv8, c8: bv8, c32: bv32, c64: bv64)
    ensures opcode == 0x3B ==> Dispatch(opcode, c8, c32, c64) == Compute(Operator(EQ, false))
    ensures opcode == 0x3C ==> Dispatch(opcode, c8, c32, c64) == Compute(Operator(EQ, true))
    ensures opcode == 0x3F ==> Dispatch(opcode, c8, c32, c64) == Compute(Operator(NEQ, false))
    ensures opcode == 0x40 ==> Dispatch(opcode, c8, c32, c64) == Compute(Operator(NEQ, true))
    ensures opcode == 0x43 ==> Dispatch(opcode, c8, c32, c64) == Compute(Operator(GT, false))
    ensures opcode == 0x44 ==> Dispatch(opcode, c8, c32, c64) == Compute(Operator(GT, true))
    ensures opcode == 0x47 ==> Dispatch(opcode, c8, c32, c64) == Compute(Operator(LT, false))
    ensures opcode == 0x48 ==> Dispatch(opcode, c8, c32, c64) == Compute(Operator(LT, true))
    ensures opcode == 0x4B ==> Dispatch(opcode, c8, c32, c64) == Compute(Operator(GEQ, false))
    ensures opcode == 0x4C ==> Dispatch(opcode, c8, c32, c64) == Compute(Operator(GEQ, true))
    ensures opcode == 0x4F ==> Dispatch(opcode, c8, c32, c64) == Compute(Operator(LEQ, false))
    ensures opcode == 0x50 ==> Dispatch(opcode, c8, c32, c64) == Compute(Operator(LEQ, true))
  {
    hide General, Accesses, Arithmetics, BitStuff, Signed32, Signed64, Cells;
  }

  // The n topmost cells replaced by others.
  predicate Replaces(r: Outcome, s: State, next: int, n: nat, cells: seq<int>) {
    Leaves(r, s, next, s.sp - n + |cells|, s.sp - n + 1, cells)
  }

  lemma ComputeRuns(f: Function, popped: seq<int>, s: State, next: int)
    requires Inside(s, s.sp - Pops(f) + 1, Pops(f)) && popped == s.cells[s.sp - Pops(f) + 1..s.sp + 1]
    ensures var r := Execute(Compute(f), s, next);
            match Results(f, popped)
            case None => r == Undefined
            case Some(cells) =>
              if Inside(s, s.sp - Pops(f) + 1, |cells|) then Replaces(r, s, next, Pops(f), cells) else r == Undefined
  {
    PopsBound(f);
    hide Results, Pops, Pushes, Poke;
    assert Peek(s.cells, s.sp - Pops(f) + 1, Pops(f)) == popped;
  }

  // ADD, SUB, MUL and DIV on the two topmost cells.
  lemma ArithmeticRuns(opcode: bv8, c8: bv8, c32: bv32, c64: bv64, s: State, next: int)
    requires Inside(s, s.sp - 1, 2)
    ensures var r, a, b := Execute(Dispatch(opcode, c8, c32, c64), s, next), s.cells[s.sp - 1], s.cells[s.sp];
            && (opcode == 0x1B ==> Replaces(r, s, next, 2, [Wrap32(a + b)]))
            && (opcode == 0x1F ==> Replaces(r, s, next, 2, [Wrap32(a - b)]))
            && (opcode == 0x23 ==> Replaces(r, s, next, 2, [Wrap32(a * b)]))
            && (opcode == 0x27 ==>
                  if b == 0 || (b == -1 && a == -TWO31) then r == Undefined
                  else Replaces(r, s, next, 2, [Wrap32(Quotient(a, b))]))
  {
    ComputeOf(opcode, c8, c32, c64);
    hide Dispatch, Execute, Replaces, Wrap32, Wrap64, Quotient;
    var a, b := s.cells[s.sp - 1], s.cells[s.sp];
    if opcode == 0x1B { OperatorOnCells(ADD, a, b, s, next); }
    if opcode == 0x1F { OperatorOnCells(SUB, a, b, s, next); }
    if opcode == 0x23 { OperatorOnCells(MUL, a, b, s, next); }
    if opcode == 0x27 { OperatorOnCells(DIV, a, b, s, next); }
  }

  lemma OperatorOnCells(op: BinaryOp, a: int, b: int, s: State, next: int)
    requires Inside(s, s.sp - 1, 2) && a == s.cells[s.sp - 1] && b == s.cells[s.sp]
    ensures var r := Execute(Compute(Operator(op, false)), s, next);
            match Apply(op, false, a, b)
            case None => r == Undefined
            case Some(v) => Replaces(r, s, next, 2, [v])
  {
    hide Execute, Replaces, Apply;
    assert s.cells[s.sp - 1..s.sp + 1] == [a, b];
    assert [a, b][..1] == [a] && [a, b][1..] == [b];
    ComputeRuns(Operator(op, false), [a, b], s, next);
  }

  // The 64-bit value whose low cell is number `at`.
  function WideAt(s: State, at: int): int
    requires Inside(s, at, 2)
  {
    TWO32 * s.cells[at + 1] + s.cells[at] % TWO32
  }

  // The same for the 64-bit forms: four cells make way for two.
  lemma WideArithmeticRuns(opcode: bv8, c8: bv8, c32: bv32, c64: bv64, s: State, next: int)
    requires Inside(s, s.sp - 3, 4)
    ensures var r, a, b := Execute(Dispatch(opcode, c8, c32, c64), s, next), WideAt(s, s.sp - 3), WideAt(s, s.sp - 1);
            && (opcode == 0x1C ==> Replaces(r, s, next, 4, Cells(Wrap64(a + b), true)))
            && (opcode == 0x20 ==> Replaces(r, s, next, 4, Cells(Wrap64(a - b), true)))
            && (opcode == 0x24 ==> Replaces(r, s, next, 4, Cells(Wrap64(a * b), true)))
            && (opcode == 0x28 ==>
                  if b == 0 || (b == -1 && a == -TWO63) then r == Undefined
                  else Replaces(r, s, next, 4, Cells(Wrap64(Quotient(a, b)), true)))
  {
    ComputeOf(opcode, c8, c32, c64);
    hide Dispatch, Execute, Replaces, Wrap32, Wrap64, Quotient, Cells;
    var a, b := WideAt(s, s.sp - 3), WideAt(s, s.sp - 1);
    if opcode == 0x1C { WideOperatorOnCells(ADD, a, b, s, next); }
    if opcode == 0x20 { WideOperatorOnCells(SUB, a, b, s, next); }
    if opcode == 0x24 { WideOperatorOnCells(MUL, a, b, s, next); }
    if opcode == 0x28 { WideOperatorOnCells(DIV, a, b, s, next); }
  }

  lemma WideOperatorOnCells(op: BinaryOp, a: int, b: int, s: State, next: int)
    requires Inside(s, s.sp - 3, 4) && a == WideAt(s, s.sp - 3) && b == WideAt(s, s.sp - 1)
    ensures var r := Execute(Compute(Operator(op, true)), s, next);
            match Apply(op, true, a, b)
            case None => r == Undefined
            case Some(v) => Replaces(r, s, next, 4, Cells(v, IsArithmetic(op)))
  {
    hide Execute, Replaces, Apply;
    var popped := s.cells[s.sp - 3..s.sp + 1];
    assert popped == [s.cells[s.sp - 3], s.cells[s.sp - 2], s.cells[s.sp - 1], s.cells[s.sp]];
    assert Value(popped[..2], true) == a && Value(popped[2..], true) == b;
    ComputeRuns(Operator(op, true), popped, s, next);
  }

  // OR, AND and the comparisons leave 1 or 0 in one cell, the 64-bit comparisons too.
  lemma LogicRuns(opcode: bv8, c8: bv8, c32: bv32, c64: bv64, s: State, next: int)
    requires Inside(s, s.sp - 1, 2)
    ensures var r, a, b := Execute(Dispatch(opcode, c8, c32, c64), s, next), s.cells[s.sp - 1], s.cells[s.sp];
            && (opcode == 0x37 ==> Replaces(r, s, next, 2, [if a == 0 && b == 0 then 0 else 1]))
            && (opcode == 0x38 ==> Replaces(r, s, next, 2, [if a == 0 || b == 0 then 0 else 1]))
  {
    ComputeOf(opcode, c8, c32, c64);
    hide Dispatch, Execute, Replaces;
    var a, b := s.cells[s.sp - 1], s.cells[s.sp];
    if opcode == 0x37 { OperatorOnCells(OR, a, b, s, next); }
    if opcode == 0x38 { OperatorOnCells(AND, a, b, s, next); }
  }

  lemma ComparisonRuns(opcode: bv8, c8: bv8, c32: bv32, c64: bv64, s: State, next: int)
    requires Inside(s, s.sp - 1, 2)
    ensures var r, a, b := Execute(Dispatch(opcode, c8, c32, c64), s, next), s.cells[s.sp - 1], s.cells[s.sp];
            && (opcode == 0x3B ==> Replaces(r, s, next, 2, [if a == b then 1 else 0]))
            && (opcode == 0x3F ==> Replaces(r, s, next, 2, [if a != b then 1 else 0]))
            && (opcode == 0x43 ==> Replaces(r, s, next, 2, [if a > b then 1 else 0]))
            && (opcode == 0x47 ==> Replaces(r, s, next, 2, [if a < b then 1 else 0]))
            && (opcode == 0x4B ==> Replaces(r, s, next, 2, [if a >= b then 1 else 0]))
            && (opcode == 0x4F ==> Replaces(r, s, next, 2, [if a <= b then 1 else 0]))
  {
    ComparisonOf(opcode, c8, c32, c64);
    hide Dispatch, Execute, Replaces;
    var a, b := s.cells[s.sp - 1], s.cells[s.sp];
    if opcode == 0x3B { OperatorOnCells(EQ, a, b, s, next); }
    if opcode == 0x3F { OperatorOnCells(NEQ, a, b, s, next); }
    if opcode == 0x43 { OperatorOnCells(GT, a, b, s, next); }
    if opcode == 0x47 { OperatorOnCells(LT, a, b, s, next); }
    if opcode == 0x4B { OperatorOnCells(GEQ, a, b, s, next); }
    if opcode == 0x4F { OperatorOnCells(LEQ, a, b, s, next); }
  }

  lemma WideComparisonRuns(opcode: bv8, c8: bv8, c32: bv32, c64: bv64, s: State, next: int)
    requires Inside(s, s.sp - 3, 4)
    ensures var r, a, b := Execute(Dispatch(opcode, c8, c32, c64), s, next), WideAt(s, s.sp - 3), WideAt(s, s.sp - 1);
            && (opcode == 0x3C ==> Replaces(r, s, next, 4, [if a == b then 1 else 0]))
            && (opcode == 0x40 ==> Replaces(r, s, next, 4, [if a != b then 1 else 0]))
            && (opcode == 0x44 ==> Replaces(r, s, next, 4, [if a > b then 1 else 0]))
            && (opcode == 0x48 ==> Replaces(r, s, next, 4, [if a < b then 1 else 0]))
            && (opcode == 0x4C ==> Replaces(r, s, next, 4, [if a >= b then 1 else 0]))
            && (opcode == 0x50 ==> Replaces(r, s, next, 4, [if a <= b then 1 else 0]))
  {
    ComparisonOf(opcode, c8, c32, c64);
    hide Dispatch, Execute, Replaces;
    var a, b := WideAt(s, s.sp - 3), WideAt(s, s.sp - 1);
    if opcode == 0x3C { WideOperatorOnCells(EQ, a, b, s, next); }
    if opcode == 0x40 { WideOperatorOnCells(NEQ, a, b, s, next); }
    if opcode == 0x44 { WideOperatorOnCells(GT, a, b, s, next); }
    if opcode == 0x48 { WideOperatorOnCells(LT, a, b, s, next); }
    if opcode == 0x4C { WideOperatorOnCells(GEQ, a, b, s, next); }
    if opcode == 0x50 { WideOperatorOnCells(LEQ, a, b, s, next); }
  }

  // BOR, BXOR and BAND: the bits of the result are those of the operands, combined.
  lemma BitsRun(opcode: bv8, c8: bv8, c32: bv32, c64: bv64, s: State, next: int)
    requires Inside(s, s.sp - 1, 2)
    ensures var r, a, b := Execute(Dispatch(opcode, c8, c32, c64), s, next),
                           BitsOf32(s.cells[s.sp - 1]), BitsOf32(s.cells[s.sp]);
            && (opcode == 0x31 ==> Replaces(r, s, next, 2, [Signed32(a | b)]))
            && (opcode == 0x33 ==> Replaces(r, s, next, 2, [Signed32(a ^ b)]))
            && (opcode == 0x35 ==> Replaces(r, s, next, 2, [Signed32(a & b)]))
  {
    BitsOf(opcode, c8, c32, c64);
    hide Dispatch, Execute, Replaces, Signed32, BitsOf32;
    if opcode == 0x31 { BitsOnCells(BOR, s, next); }
    if opcode == 0x33 { BitsOnCells(BXOR, s, next); }
    if opcode == 0x35 { BitsOnCells(BAND, s, next); }
  }

  lemma BitsOnCells(op: BitOp, s: State, next: int)
    requires Inside(s, s.sp - 1, 2)
    ensures Replaces(Execute(Compute(Bits(op, false)), s, next), s, next, 2,
                     [Bitwise(op, false, s.cells[s.sp - 1], s.cells[s.sp])])
  {
    hide Execute, Replaces, Bitwise;
    var a, b := s.cells[s.sp - 1], s.cells[s.sp];
    assert s.cells[s.sp - 1..s.sp + 1] == [a, b];
    assert [a, b][..1] == [a] && [a, b][1..] == [b];
    ComputeRuns(Bits(op, false), [a, b], s, next);
  }

  lemma WideBitsRun(opcode: bv8, c8: bv8, c32: bv32, c64: bv64, s: State, next: int)
    requires Inside(s, s.sp - 3, 4)
    ensures var r, a, b := Execute(Dispatch(opcode, c8, c32, c64), s, next),
                           BitsOf64(WideAt(s, s.sp - 3)), BitsOf64(WideAt(s, s.sp - 1));
            && (opcode == 0x32 ==> Replaces(r, s, next, 4, Cells(Signed64(a | b), true)))
            && (opcode == 0x34 ==> Replaces(r, s, next, 4, Cells(Signed64(a ^ b), true)))
            && (opcode == 0x36 ==> Replaces(r, s, next, 4, Cells(Signed64(a & b), true)))
  {
    BitsOf(opcode, c8, c32, c64);
    hide Dispatch, Execute, Replaces, Signed64, BitsOf64, Cells;
    if opcode == 0x32 { WideBitsOnCells(BOR, s, next); }
    if opcode == 0x34 { WideBitsOnCells(BXOR, s, next); }
    if opcode == 0x36 { WideBitsOnCells(BAND, s, next); }
  }

  lemma WideBitsOnCells(op: BitOp, s: State, next: int)
    requires Inside(s, s.sp - 3, 4)
    ensures Replaces(Execute(Compute(Bits(op, true)), s, next), s, next, 4,
                     Cells(Bitwise(op, true, WideAt(s, s.sp - 3), WideAt(s, s.sp - 1)), true))
  {
    hide Execute, Replaces, Bitwise, Cells;
    var popped := s.cells[s.sp - 3..s.sp + 1];
    assert popped == [s.cells[s.sp - 3], s.cells[s.sp - 2], s.cells[s.sp - 1], s.cells[s.sp]];
    assert Value(popped[..2], true) == WideAt(s, s.sp - 3) && Value(popped[2..], true) == WideAt(s, s.sp - 1);
    ComputeRuns(Bits(op, true), popped, s, next);
  }

  // INV, NEG and CPZ on one cell; ITOL spreads it over two.
  lemma UnaryRuns(opcode: bv8, c8: bv8, c32: bv32, c64: bv64, s: State, next: int)
    requires Inside(s, s.sp, 1) && Is32(s.cells[s.sp])
    ensures var r, a := Execute(Dispatch(opcode, c8, c32, c64), s, next), s.cells[s.sp];
            && (opcode == 0x2B ==> Replaces(r, s, next, 1, [-a - 1]))
            && (opcode == 0x2D ==> Replaces(r, s, next, 1, [Wrap32(-a)]))
            && (opcode == 0x39 ==> Replaces(r, s, next, 1, [if a == 0 then 1 else 0]))
            && (opcode == 0x5A ==>
                  if Inside(s, s.sp + 1, 1) then Replaces(r, s, next, 1, [a, if a < 0 then -1 else 0])
                  else r == Undefined)
  {
    ComputeOf(opcode, c8, c32, c64);
    var a := s.cells[s.sp];
    assert s.cells[s.sp..s.sp + 1] == [a];
    SignExtended(a);
    hide Dispatch, Execute, Replaces, Wrap32, Low, High;
    if opcode == 0x2B { ComputeRuns(Inv(false), [a], s, next); }
    if opcode == 0x2D { ComputeRuns(Negate(false), [a], s, next); }
    if opcode == 0x39 { ComputeRuns(Cpz(false), [a], s, next); }
    if opcode == 0x5A { ComputeRuns(IntToLong, [a], s, next); }
  }

  lemma SignExtended(a: int)
    requires Is32(a)
    ensures Low(a) == a && High(a) == if a < 0 then -1 else 0
  {
  }

  // NEG.64 and CPZ.64 on two cells; LTOI keeps the lower one.
  lemma WideUnaryRuns(opcode: bv8, c8: bv8, c32: bv32, c64: bv64, s: State, next: int)
    requires Inside(s, s.sp - 1, 2) && Is32(s.cells[s.sp - 1])
    ensures var r, a := Execute(Dispatch(opcode, c8, c32, c64), s, next), WideAt(s, s.sp - 1);
            && (opcode == 0x2E ==> Replaces(r, s, next, 2, Cells(Wrap64(-a), true)))
            && (opcode == 0x3A ==> Replaces(r, s, next, 2, [if a == 0 then 1 else 0, 0]))
            && (opcode == 0x5E ==> Replaces(r, s, next, 2, [s.cells[s.sp - 1]]))
  {
    ComputeOf(opcode, c8, c32, c64);
    var popped := s.cells[s.sp - 1..s.sp + 1];
    assert popped == [s.cells[s.sp - 1], s.cells[s.sp]] && Value(popped, true) == WideAt(s, s.sp - 1);
    assert Value(popped, true) == Join(popped[0], popped[1]);
    SignExtended(0);
    SignExtended(1);
    LowOfJoin(popped[0], popped[1]);
    hide Dispatch, Execute, Replaces, Wrap64, Low, High, Value;
    if opcode == 0x2E { ComputeRuns(Negate(true), popped, s, next); }
    if opcode == 0x3A { ComputeRuns(Cpz(true), popped, s, next); }
    if opcode == 0x5E { ComputeRuns(LongToInt, popped, s, next); }
  }

  lemma LowOfJoin(low: int, high: int)
    requires Is32(low)
    ensures Low(Join(low, high)) == low
  {
    WrapExact(false, Join(low, high));
  }

  // With too few cells, nothing is computed.
  lemma TooFewCells(f: Function, s: State, next: int)
    requires !Inside(s, s.sp - Pops(f) + 1, Pops(f))
    ensures Execute(Compute(f), s, next) == Undefined
  {
    PopsBound(f);
    hide Pops, Pushes;
  }

  // A cell's bits are its value modulo 2^32, and give it back.
  lemma BitsExact(v: int, w: bv32)
    requires Is32(v)
    ensures BitsOf32(v) as int == v % TWO32 && Signed32(BitsOf32(v)) == v
    ensures (Signed32(w) - w as int) % TWO32 == 0
  {
    assert BitsOf32(v) as int == v % TWO32;
    hide BitsOf32;
    WrapsBack(v);
    WrapExact(false, w as int);
  }

  lemma WideBitsExact(v: int, w: bv64)
    requires Is64(v)
    ensures BitsOf64(v) as int == v % TWO64 && Signed64(BitsOf64(v)) == v
    ensures (Signed64(w) - w as int) % TWO64 == 0
  {
    assert BitsOf64(v) as int == v % TWO64;
    hide BitsOf64;
    WrapsBack64(v);
    WrapExact(true, w as int);
  }

  lemma WrapsBack64(v: int)
    requires Is64(v)
    ensures Wrap64(v % TWO64) == v
  {
  }

  lemma WrapsBack(v: int)
    requires Is32(v)
    ensures Wrap32(v % TWO32) == v
  {
  }

  //// Literals ////

  // LDI pushes its 32 operand bits as a signed number, LDI.64 the low and the high half of
  // its 64.
  lemma LiteralRuns(c8: bv8, c32: bv32, c64: bv64, s: State, next: int)
    ensures var r := Execute(Dispatch(0x09, c8, c32, c64), s, next);
            if Inside(s, s.sp + 1, 1) then Leaves(r, s, next, s.sp + 1, s.sp + 1, [Signed32(c32)]) else r == Undefined
    ensures var r := Execute(Dispatch(0x0A, c8, c32, c64), s, next);
            if Inside(s, s.sp + 1, 2) then Leaves(r, s, next, s.sp + 2, s.sp + 1, Cells(Signed64(c64), true))
            else r == Undefined
  {
    hide Poke, Signed32, Signed64, General, Accesses, Arithmetics, BitStuff, Comparisons, Low, High;
  }

  //// Control ////

  // BRZ and BRNZ pop a cell and jump when it is zero, or when it is not.
  lemma BranchRuns(opcode: bv8, c8: bv8, c32: bv32, c64: bv64, s: State, next: int)
    requires opcode == 0x55 || opcode == 0x56
    ensures var r := Execute(Dispatch(opcode, c8, c32, c64), s, next);
            if !Inside(s, s.sp, 1) then r == Undefined
            else
              var zero := s.cells[s.sp] == 0;
              Leaves(r, s, if zero == (opcode == 0x55) then c32 as int else next, s.sp - 1, 0, [])
  {
    hide General, Accesses, Arithmetics, BitStuff, Comparisons, Signed32, Signed64, Cells;
  }

  // BRIZ and BRINZ take the target from the topmost cell and look at the one below, JMPI
  // takes it from the topmost cell, JMP from its operand.
  lemma JumpRuns(opcode: bv8, c8: bv8, c32: bv32, c64: bv64, s: State, next: int)
    requires opcode == 0x57 || opcode == 0x58 || opcode == 0x59 || opcode == 0x02
    ensures var r := Execute(Dispatch(opcode, c8, c32, c64), s, next);
            && (opcode == 0x02 ==> Leaves(r, s, c32 as int, s.sp, 0, []))
            && (opcode == 0x59 ==>
                  if Inside(s, s.sp, 1) then Leaves(r, s, Unsigned(s.cells[s.sp]), s.sp - 1, 0, []) else r == Undefined)
            && (opcode == 0x57 || opcode == 0x58 ==>
                  if !Inside(s, s.sp - 1, 2) then r == Undefined
                  else
                    var taken := (s.cells[s.sp - 1] == 0) == (opcode == 0x57);
                    Leaves(r, s, if taken then Unsigned(s.cells[s.sp]) else next, s.sp - 2, 0, []))
  {
    JumpOf(opcode, c8, c32, c64);
    hide Dispatch, Execute;
    if opcode == 0x02 { PlainJump(c32 as nat, s, next); }
    if opcode == 0x59 { IndirectJump(s, next); }
    if opcode == 0x57 { IndirectBranch(true, s, next); }
    if opcode == 0x58 { IndirectBranch(false, s, next); }
  }

  lemma PlainJump(to: nat, s: State, next: int)
    ensures Leaves(Execute(Jump(to), s, next), s, to, s.sp, 0, [])
  {
  }

  lemma IndirectJump(s: State, next: int)
    ensures var r := Execute(JumpTo, s, next);
            if Inside(s, s.sp, 1) then Leaves(r, s, Unsigned(s.cells[s.sp]), s.sp - 1, 0, []) else r == Undefined
  {
    hide Unsigned;
  }

  lemma IndirectBranch(onZero: bool, s: State, next: int)
    ensures var r := Execute(BranchTo(onZero), s, next);
            if !Inside(s, s.sp - 1, 2) then r == Undefined
            else
              var taken := (s.cells[s.sp - 1] == 0) == onZero;
              Leaves(r, s, if taken then Unsigned(s.cells[s.sp]) else next, s.sp - 2, 0, [])
  {
    hide Unsigned;
  }

  lemma JumpOf(opcode: bv8, c8: bv8, c32: bv32, c64: bv64)
    ensures opcode == 0x02 ==> Dispatch(opcode, c8, c32, c64) == Jump(c32 as nat)
    ensures opcode == 0x57 ==> Dispatch(opcode, c8, c32, c64) == BranchTo(true)
    ensures opcode == 0x58 ==> Dispatch(opcode, c8, c32, c64) == BranchTo(false)
    ensures opcode == 0x59 ==> Dispatch(opcode, c8, c32, c64) == JumpTo
  {
    hide Accesses, Arithmetics, BitStuff, Comparisons, Signed32, Signed64, Cells;
  }

  // CALL pushes the frame pointer and the return address, and the frame starts there.
  lemma CallRuns(c8: bv8, c32: bv32, c64: bv64, s: State, next: int)
    requires Is32(next)
    ensures var r := Execute(Dispatch(0x03, c8, c32, c64), s, next);
            if !Inside(s, s.sp + 1, 2) then r == Undefined
            else
              && r.Running? && r.s.frame == s.sp + 1
              && Leaves(Running(r.s.(frame := s.frame)), s, c32 as int, s.sp + 2, s.sp + 1, [s.frame, next])
  {
    hide Poke, Accesses, Arithmetics, BitStuff, Comparisons, Signed32, Signed64, Cells, Wrap32;
    WrapIsSame(next);
  }

  lemma WrapIsSame(v: int)
    requires Is32(v)
    ensures Wrap32(v) == v
  {
  }

  // RET, RET.32 and RET.64 go on at the return address in the caller's frame, with no cell,
  // the topmost one or the two topmost ones in place of `c8` bytes of arguments.
  lemma ReturnRuns(opcode: bv8, c8: bv8, c32: bv32, c64: bv64, s: State, next: int)
    requires 0x04 <= opcode <= 0x06
    ensures var r := Execute(Dispatch(opcode, c8, c32, c64), s, next);
            var n, base := if opcode == 0x04 then 0 else if opcode == 0x05 then 1 else 2, s.frame - c8 as int / 4;
            if c8 as int % 4 != 0 || !Inside(s, s.frame, 2)
               || (n > 0 && !(Inside(s, s.sp - n + 1, n) && Inside(s, base, n))) then r == Undefined
            else
              && r.Running? && r.s.frame == s.cells[s.frame]
              && Leaves(Running(r.s.(frame := s.frame)), s, s.cells[s.frame + 1], base - 1 + n, base,
                        if n == 0 then [] else if n == 1 then [s.cells[s.sp]] else [s.cells[s.sp - 1], s.cells[s.sp]])
  {
    ReturnOf(opcode, c8, c32, c64);
    hide Dispatch, Execute;
    ReturnCells(c8 as nat, if opcode == 0x04 then 0 else if opcode == 0x05 then 1 else 2, s, next);
  }

  lemma ReturnCells(argBytes: nat, n: nat, s: State, next: int)
    requires n <= 2
    ensures var r, base := Execute(Return(argBytes, n), s, next), s.frame - argBytes / 4;
            if argBytes % 4 != 0 || !Inside(s, s.frame, 2)
               || (n > 0 && !(Inside(s, s.sp - n + 1, n) && Inside(s, base, n))) then r == Undefined
            else
              && r.Running? && r.s.frame == s.cells[s.frame]
              && Leaves(Running(r.s.(frame := s.frame)), s, s.cells[s.frame + 1], base - 1 + n, base,
                        if n == 0 then [] else if n == 1 then [s.cells[s.sp]] else [s.cells[s.sp - 1], s.cells[s.sp]])
  {
    hide Poke, Peek;
    if n > 0 && Within(s.cells, s.sp - n + 1, n) { PeekIs(s.cells, s.sp - n + 1, n); }
  }

  lemma ReturnOf(opcode: bv8, c8: bv8, c32: bv32, c64: bv64)
    ensures opcode == 0x04 ==> Dispatch(opcode, c8, c32, c64) == Return(c8 as nat, 0)
    ensures opcode == 0x05 ==> Dispatch(opcode, c8, c32, c64) == Return(c8 as nat, 1)
    ensures opcode == 0x06 ==> Dispatch(opcode, c8, c32, c64) == Return(c8 as nat, 2)
  {
    hide Accesses, Arithmetics, BitStuff, Comparisons, Signed32, Signed64, Cells;
  }

  // NOP goes on; EXIT ends the run with 0, an opcode that is none with 100.
  lemma PlainRuns(opcode: bv8, c8: bv8, c32: bv32, c64: bv64, s: State, next: int)
    ensures opcode == 0x00 ==> Leaves(Execute(Dispatch(opcode, c8, c32, c64), s, next), s, next, s.sp, 0, [])
    ensures opcode == 0x01 ==> Execute(Dispatch(opcode, c8, c32, c64), s, next) == Exited(0)
    ensures opcode > 0x75 ==> Execute(Dispatch(opcode, c8, c32, c64), s, next) == Exited(100)
  {
    hide Accesses, Arithmetics, BitStuff, Comparisons, Signed32, Signed64, Cells;
  }

  //// System calls ////

  // The type bits of a tag are its upper four: the cells its value takes.
  function TypeCells(tag: nat): nat {
    var bits := tag / 16 % 16;
    if bits == 1 || 4 <= bits <= 7 then 2 else 1
  }

  // Longs and doubles take two cells, and a pointer or a float that says it is one as well
  // takes one; the size nibble counts whole cells.
  lemma TagExact(tag: nat)
    ensures SysPrint.TypeWidth(tag) == TypeCells(tag)
    ensures 4 * SysPrint.NibbleWidth(tag) <= tag % 16 < 4 * SysPrint.NibbleWidth(tag) + 4
  {
    var u := tag / 16;
    assert tag / 0x80 == u / 8 && tag / 0x40 == u / 4 && tag / 0x20 == u / 2;
    var q, t := u / 16, u % 16;
    HalfBits(q, t);
    assert u == 16 * q + t;
  }

  lemma HalfBits(q: nat, t: nat)
    requires t < 16
    ensures (16 * q + t) / 8 % 2 == t / 8 && (16 * q + t) / 4 % 2 == t / 4 % 2
    ensures (16 * q + t) / 2 % 2 == t / 2 % 2 && (16 * q + t) % 2 == t % 2
  {
    DividesEvenly(8, 2 * q, t);
    DividesEvenly(4, 4 * q, t);
    DividesEvenly(2, 8 * q, t);
    EvenPlus(q, t / 8);
    EvenPlus(2 * q, t / 4);
    EvenPlus(4 * q, t / 2);
    EvenPlus(8 * q, t);
  }

  lemma DividesEvenly(m: nat, q: nat, t: nat)
    requires m == 2 || m == 4 || m == 8
    ensures (m * q + t) / m == q + t / m
  {
  }

  lemma EvenPlus(q: nat, b: nat)
    ensures (2 * q + b) % 2 == b % 2
  {
  }

  // SARG adds its operand to the tags, of which there is room for eight.
  lemma TagRuns(c8: bv8, c32: bv32, c64: bv64, s: State, next: int)
    ensures var r := Execute(Dispatch(0x08, c8, c32, c64), s, next);
            if |s.sysArgs| >= 8 then r == Undefined
            else r.Running? && r.s.sysArgs == s.sysArgs + [c8 as nat]
                 && Leaves(Running(r.s.(sysArgs := s.sysArgs)), s, next, s.sp, 0, [])
  {
    hide Accesses, Arithmetics, BitStuff, Comparisons, Signed32, Signed64, Cells;
  }

  function SizeCells(tags: seq<nat>): nat {
    if tags == [] then 0 else tags[0] % 16 / 4 + SizeCells(tags[1..])
  }

  lemma {:induction false} SizesAreNibbles(tags: seq<nat>)
    ensures SysPrint.NibbleWidths(tags) == SizeCells(tags)
  {
    if tags != [] {
      TagExact(tags[0]);
      SizesAreNibbles(tags[1..]);
    }
  }

  // SCALL forgets the tags. Print also lowers `sp`: by one with no tag or a single one, and
  // otherwise by what the size nibbles add up to.
  lemma SysCallRuns(c8: bv8, c32: bv32, c64: bv64, s: State, next: int)
    ensures var r, width := Execute(Dispatch(0x07, c8, c32, c64), s, next), SysPrint.TypeWidths(s.sysArgs);
            && (c8 == 0 ==>
                  if !Inside(s, s.sp, 1) || (width > 0 && !Inside(s, s.sp - width + 1, width)) then r == Undefined
                  else r.Running? && r.s.sysArgs == []
                       && Leaves(Running(r.s.(sysArgs := s.sysArgs)), s, next,
                                 s.sp - if |s.sysArgs| <= 1 then 1 else SizeCells(s.sysArgs), 0, []))
            && (2 <= c8 <= 5 ==>
                  r.Running? && r.s.sysArgs == [] && Leaves(Running(r.s.(sysArgs := s.sysArgs)), s, next, s.sp, 0, []))
  {
    SizesAreNibbles(s.sysArgs);
    SysCallOf(c8, c32, c64);
    hide Dispatch, SysPrint.TypeWidths, SysPrint.NibbleWidths, SizeCells;
  }

  lemma SysCallOf(c8: bv8, c32: bv32, c64: bv64)
    ensures Dispatch(0x07, c8, c32, c64) == SysCall(c8 as nat)
  {
    hide Accesses, Arithmetics, BitStuff, Comparisons, Signed32, Signed64, Cells;
  }

  //// Turns ////

  // The program ends with 0 at the end of its code, before anything is fetched. Behind every
  // other step the stack overflows with 101 when 512 cells or more are in use below `sp`.
  lemma TurnExact(d: Decoder, p: Program, s: State)
    ensures s.ip >= p.codeEnd ==> Step(d, p, s) == Exited(0)
    ensures Step(d, p, s).Running? ==> Step(d, p, s).s.sp < 512
    ensures 0 <= s.ip < p.codeEnd && s.ip < |p.memory| ==>
              var raw := Encoding.Fetch(p.memory, p.beyond, s.ip);
              var r := Execute(DecodeOperation(d, raw), s, s.ip + Advance(Opcode(d, raw)));
              Step(d, p, s) == if r.Running? && r.s.sp >= 512 then Exited(101) else r
  {
    hide Execute, DecodeOperation, Advance, Opcode;
  }

  // The two marks at the bottom of the stack, the frame on the first and `sp` on the second.
  lemma InitialExact(garbage: seq<int>)
    requires |garbage| == REACHABLE
    ensures var s := InitialState(garbage);
            s.ip == 0 && s.sp == 1 && s.frame == 0 && s.sysArgs == [] && s.cells[0] == 0xAC1D && s.cells[1] == 0xFACE
  {
  }
}
