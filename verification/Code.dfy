// The code generated for statements and expressions, and that it means what
// they mean (compiler/code_generator.cpp).

module Code {
  import opened Options
  import opened Words
  import opened Types
  import opened Machine

  datatype Stmt =
    | Decl(slot: Slot, dataType: DataType)
    | Init(slot: Slot, dataType: DataType, value: Expr)
    | Assign(slot: Slot, dataType: DataType, value: Expr)
    | Block(body: seq<Stmt>)
    | If(cond: Expr, thn: seq<Stmt>)
    | IfElse(cond: Expr, thn: seq<Stmt>, els: seq<Stmt>)
    | Return
    | ReturnValue(value: Expr)

  //// Code ////

  function BinaryCode(op: BinaryOp, t: DataType): Op {
    if op == BinaryOp.OR then Op.OR
    else if op == BinaryOp.AND then Op.AND
    else if IsArithmetic(op) then ARITH(op, Wide(t))
    else CP(op, Wide(t))
  }

  function CastCode(from: DataType, to: DataType): seq<Instruction> {
    if from == to then [] else if from == INT then [Plain(ITOL)] else [Plain(LTOI)]
  }

  function ExprCode(e: Expr): seq<Instruction> {
    match e
    case Id(slot, t) => [Plain(LD(slot, Wide(t)))]
    case Number(v, t) => [Plain(if t == INT then LDI(v) else LDI_64(v))]
    case Binary(op, l, r, t) => ExprCode(l) + ExprCode(r) + [Plain(BinaryCode(op, t))]
    case Neg(x, _) => ExprCode(x) + [Plain(NEG(Wide(x.dataType)))]
    case Cast(x, t) => ExprCode(x) + CastCode(x.dataType, t)
  }

  function Branch(op: Op, jumpAfter: int): Instruction {
    Instruction(op, -1, jumpAfter, "", "")
  }

  // The code of a statement whose first instruction will have index `base`.
  function StmtCode(s: Stmt, base: nat): seq<Instruction>
    decreases s, 1
  {
    match s
    case Decl(_, _) => []
    case Init(slot, t, e) => ExprCode(e) + [Plain(ST(slot, Wide(t)))]
    case Assign(slot, t, e) => ExprCode(e) + [Plain(ST(slot, Wide(t)))]
    case Block(ss) => StmtsCode(ss, base)
    case If(c, thn) =>
      var k := base + |ExprCode(c)|;
      var t := StmtsCode(thn, k + 1);
      ExprCode(c) + [Branch(BRZ, k + |t|)] + t
    case IfElse(c, thn, els) =>
      var k := base + |ExprCode(c)|;
      var t := StmtsCode(thn, k + 1);
      var j := k + 1 + |t|;
      var f := StmtsCode(els, j + 1);
      ExprCode(c) + [Branch(BRZ, j)] + t + [Branch(JMP, j + |f|)] + f
    case Return => [Plain(RET)]
    case ReturnValue(e) => ExprCode(e) + [Plain(RET)]
  }

  function StmtsCode(ss: seq<Stmt>, base: nat): seq<Instruction>
    decreases ss, 0
  {
    if ss == [] then []
    else
      var first := StmtCode(ss[0], base);
      first + StmtsCode(ss[1..], base + |first|)
  }

  //// Meaning of statements ////

  datatype Effect = Normal(vars: Vars) | Left(cells: seq<int>, vars: Vars) | Trap

  function Perform(s: Stmt, vars: Vars): Effect
    decreases s, 1
  {
    match s
    case Decl(_, _) => Normal(vars)
    case Init(slot, _, e) => Put(slot, Eval(e, vars), vars)
    case Assign(slot, _, e) => Put(slot, Eval(e, vars), vars)
    case Block(ss) => PerformAll(ss, vars)
    case If(c, thn) =>
      (match Eval(c, vars)
       case None => Trap
       case Some(v) => if v != 0 then PerformAll(thn, vars) else Normal(vars))
    case IfElse(c, thn, els) =>
      (match Eval(c, vars)
       case None => Trap
       case Some(v) => if v != 0 then PerformAll(thn, vars) else PerformAll(els, vars))
    case Return => Left([], vars)
    case ReturnValue(e) =>
      (match Eval(e, vars)
       case None => Trap
       case Some(v) => Left(Cells(v, PushesWide(e)), vars))
  }

  function PerformAll(ss: seq<Stmt>, vars: Vars): Effect
    decreases ss, 0
  {
    if ss == [] then Normal(vars)
    else
      match Perform(ss[0], vars)
      case Normal(vars') => PerformAll(ss[1..], vars')
      case r => r
  }

  function Put(slot: Slot, v: Option<int>, vars: Vars): Effect {
    match v
    case Some(x) => Normal(vars[slot := x])
    case None => Trap
  }

  predicate ConsistentStmt(s: Stmt)
    decreases s, 1
  {
    match s
    case Decl(_, _) => true
    case Init(_, t, e) => Consistent(e) && PushesWide(e) == Wide(t)
    case Assign(_, t, e) => Consistent(e) && PushesWide(e) == Wide(t)
    case Block(ss) => ConsistentAll(ss)
    case If(c, thn) => Consistent(c) && !PushesWide(c) && ConsistentAll(thn)
    case IfElse(c, thn, els) => Consistent(c) && !PushesWide(c) && ConsistentAll(thn) && ConsistentAll(els)
    case Return => true
    case ReturnValue(e) => Consistent(e)
  }

  predicate ConsistentAll(ss: seq<Stmt>)
    decreases ss, 0
  {
    ss == [] || (ConsistentStmt(ss[0]) && ConsistentAll(ss[1..]))
  }

  //// The code computes the meaning ////

  predicate At(code: seq<Instruction>, i: nat, part: seq<Instruction>) {
    i + |part| <= |code| && code[i..i + |part|] == part
  }

  lemma AtSplits(code: seq<Instruction>, i: nat, a: seq<Instruction>, b: seq<Instruction>)
    requires At(code, i, a + b)
    ensures At(code, i, a) && At(code, i + |a|, b)
  {
    assert code[i..i + |a|] == (a + b)[..|a|];
    assert code[i + |a|..i + |a| + |b|] == (a + b)[|a|..];
  }

  lemma PopCells(stack: seq<int>, v: int, wide: bool)
    ensures Holds(stack + Cells(v, wide), wide, 1)
    ensures Pop(stack + Cells(v, wide), wide) == (v, stack)
  {
    JoinSplits(v);
    assert (stack + Cells(v, wide))[..|stack|] == stack;
  }

  lemma ExecStep(code: seq<Instruction>, s: State)
    requires s.pc < |code|
    ensures Step(code, s).Running? && Step(code, s).s.pc > s.pc ==> Exec(code, s) == Exec(code, Step(code, s).s)
    ensures !Step(code, s).Running? ==> Exec(code, s) == Step(code, s)
  {
  }

  // What running the code of e from anywhere comes to.
  ghost predicate ExprRuns(code: seq<Instruction>, i: nat, e: Expr, stack: seq<int>, vars: Vars) {
    match Eval(e, vars)
    case Some(v) =>
      Exec(code, State(i, stack, vars)) == Exec(code, State(i + |ExprCode(e)|, stack + Cells(v, PushesWide(e)), vars))
    case None => Exec(code, State(i, stack, vars)) == Trapped
  }

  lemma PopTwo(stack: seq<int>, a: int, b: int, wide: bool)
    ensures var both := stack + Cells(a, wide) + Cells(b, wide);
            Holds(both, wide, 2) && Pop(both, wide) == (b, stack + Cells(a, wide))
            && Pop(stack + Cells(a, wide), wide) == (a, stack)
  {
    PopCells(stack + Cells(a, wide), b, wide);
    PopCells(stack, a, wide);
  }

  lemma LogicalIgnoresWidth(op: BinaryOp, a: int, b: int)
    ensures IsLogical(op) ==> Apply(op, true, a, b) == Apply(op, false, a, b)
  {
  }

  lemma BinaryOnTwo(k: nat, op: BinaryOp, wide: bool, wideResult: bool, stack: seq<int>, a: int, b: int, vars: Vars)
    ensures Machine.Binary(State(k, stack + Cells(a, wide) + Cells(b, wide), vars), op, wide, wideResult)
         == match Apply(op, wide, a, b)
            case Some(v) => Running(State(k + 1, stack + Cells(v, wideResult), vars))
            case None => Trapped
  {
    hide Pop, Apply, Cells;
    PopTwo(stack, a, b, wide);
  }

  lemma BinaryStep(code: seq<Instruction>, s: State, op: BinaryOp, t: DataType)
    requires s.pc < |code| && code[s.pc] == Plain(BinaryCode(op, t))
    ensures Step(code, s) == Machine.Binary(s, op, !IsLogical(op) && Wide(t), IsArithmetic(op) && Wide(t))
  {
    hide Machine.Binary;
  }

  lemma BinaryRuns(code: seq<Instruction>, k: nat, op: BinaryOp, t: DataType, stack: seq<int>, a: int, b: int,
                   vars: Vars)
    requires k < |code| && code[k] == Plain(BinaryCode(op, t))
    ensures var wide := !IsLogical(op) && Wide(t);
            var s := State(k, stack + Cells(a, wide) + Cells(b, wide), vars);
            match Apply(op, Wide(t), a, b)
            case Some(v) =>
              Exec(code, s) == Exec(code, State(k + 1, stack + Cells(v, IsArithmetic(op) && Wide(t)), vars))
            case None => Exec(code, s) == Trapped
  {
    var wide := !IsLogical(op) && Wide(t);
    LogicalIgnoresWidth(op, a, b);
    hide Exec, Apply, Cells, Machine.Binary, Step, BinaryCode;
    BinaryOnTwo(k, op, wide, IsArithmetic(op) && Wide(t), stack, a, b, vars);
    var s := State(k, stack + Cells(a, wide) + Cells(b, wide), vars);
    BinaryStep(code, s, op, t);
    ExecStep(code, s);
  }

  lemma LeafRuns(code: seq<Instruction>, i: nat, e: Expr, stack: seq<int>, vars: Vars)
    requires (e.Id? || e.Number?) && i < |code| && code[i] == ExprCode(e)[0]
    ensures ExprRuns(code, i, e, stack, vars)
  {
    ExecStep(code, State(i, stack, vars));
  }

  // One instruction that consumes one value.
  function UnaryResult(op: Op, a: int): seq<int> {
    match op
    case NEG(wide) => Cells(Wrap(wide, -a), wide)
    case ITOL => Cells(a, true)
    case _ => [Wrap32(a)]
  }

  lemma UnaryRuns(code: seq<Instruction>, k: nat, op: Op, stack: seq<int>, a: int, vars: Vars)
    requires k < |code| && code[k] == Plain(op) && (op.NEG? || op == ITOL || op == LTOI)
    ensures var wide := op == LTOI || (op.NEG? && op.wide);
            Exec(code, State(k, stack + Cells(a, wide), vars))
            == Exec(code, State(k + 1, stack + UnaryResult(op, a), vars))
  {
    hide Exec, Pop, Cells, Wrap, Wrap32, Wrap64;
    match op
    case NEG(wide) =>
      PopCells(stack, a, wide);
      ExecStep(code, State(k, stack + Cells(a, wide), vars));
    case ITOL =>
      PopCells(stack, a, false);
      ExecStep(code, State(k, stack + Cells(a, false), vars));
    case LTOI =>
      PopCells(stack, a, true);
      ExecStep(code, State(k, stack + Cells(a, true), vars));
  }

  lemma BinaryCase(code: seq<Instruction>, i: nat, e: Expr, stack: seq<int>, vars: Vars)
    requires e.Binary? && Consistent(e) && At(code, i, ExprCode(e))
    requires ExprRuns(code, i, e.lhs, stack, vars)
    requires Eval(e.lhs, vars).Some? ==>
               ExprRuns(code, i + |ExprCode(e.lhs)|, e.rhs,
                        stack + Cells(Eval(e.lhs, vars).value, PushesWide(e.lhs)), vars)
    ensures ExprRuns(code, i, e, stack, vars)
  {
    hide Exec, Apply, Cells, At, Eval, PushesWide, Consistent, ExprCode, BinaryCode;
    var k := i + |ExprCode(e.lhs)| + |ExprCode(e.rhs)|;
    BinaryMeans(e, vars);
    AtSplits(code, i, ExprCode(e.lhs) + ExprCode(e.rhs), [Plain(BinaryCode(e.op, e.dataType))]);
    AtLast(code, k, Plain(BinaryCode(e.op, e.dataType)));
    if Eval(e.lhs, vars).Some? && Eval(e.rhs, vars).Some? {
      BinaryRuns(code, k, e.op, e.dataType, stack, Eval(e.lhs, vars).value, Eval(e.rhs, vars).value, vars);
    }
  }

  lemma BinaryMeans(e: Expr, vars: Vars)
    requires e.Binary? && Consistent(e)
    ensures ExprCode(e) == ExprCode(e.lhs) + ExprCode(e.rhs) + [Plain(BinaryCode(e.op, e.dataType))]
    ensures PushesWide(e) == (IsArithmetic(e.op) && Wide(e.dataType))
    ensures PushesWide(e.lhs) == PushesWide(e.rhs) == (!IsLogical(e.op) && Wide(e.dataType))
    ensures Eval(e, vars) ==
            match (Eval(e.lhs, vars), Eval(e.rhs, vars))
            case (Some(a), Some(b)) => Apply(e.op, Wide(e.dataType), a, b)
            case _ => None
  {
    hide Apply;
  }

  lemma UnaryCase(code: seq<Instruction>, i: nat, e: Expr, stack: seq<int>, vars: Vars)
    requires (e.Neg? || e.Cast?) && Consistent(e) && At(code, i, ExprCode(e))
    requires ExprRuns(code, i, e.operand, stack, vars)
    ensures ExprRuns(code, i, e, stack, vars)
  {
    hide Wrap32, Wrap64, Exec, UnaryResult, Cells, At, Eval, ExprCode, PushesWide, Consistent;
    var x := e.operand;
    if e.Cast? && x.dataType == e.dataType {
      SameTypeCast(e, vars);
    } else {
      var op := UnaryOp(e);
      UnaryMeans(e, vars);
      AtSplits(code, i, ExprCode(x), [Plain(op)]);
      if Eval(x, vars).Some? {
        assert code[i + |ExprCode(x)|] == Plain(op) by { AtLast(code, i + |ExprCode(x)|, Plain(op)); }
        UnaryRuns(code, i + |ExprCode(x)|, op, stack, Eval(x, vars).value, vars);
      }
    }
  }

  lemma AtLast(code: seq<Instruction>, k: nat, b: Instruction)
    requires At(code, k, [b])
    ensures k < |code| && code[k] == b
  {
  }

  lemma SameTypeCast(e: Expr, vars: Vars)
    requires e.Cast? && e.operand.dataType == e.dataType
    ensures ExprCode(e) == ExprCode(e.operand) && PushesWide(e) == PushesWide(e.operand)
    ensures Eval(e, vars) == Eval(e.operand, vars)
  {
    hide Wrap32;
    assert ExprCode(e) == ExprCode(e.operand);
  }

  // The instruction behind the operand of a negation or a cast.
  function UnaryOp(e: Expr): Op
    requires e.Neg? || e.Cast?
  {
    if e.Neg? then NEG(Wide(e.operand.dataType)) else if e.dataType == LONG then ITOL else LTOI
  }

  lemma UnaryMeans(e: Expr, vars: Vars)
    requires e.Neg? || (e.Cast? && e.operand.dataType != e.dataType)
    requires Consistent(e)
    ensures ExprCode(e) == ExprCode(e.operand) + [Plain(UnaryOp(e))]
    ensures PushesWide(e.operand) == (UnaryOp(e) == LTOI || (UnaryOp(e).NEG? && UnaryOp(e).wide))
    ensures Eval(e.operand, vars).Some? <==> Eval(e, vars).Some?
    ensures Eval(e, vars).Some? ==>
              UnaryResult(UnaryOp(e), Eval(e.operand, vars).value) == Cells(Eval(e, vars).value, PushesWide(e))
  {
    hide Wrap32, Wrap64, Low, High;
  }

  // From any stack and variables, the code of a consistent expression pushes
  // exactly its value and changes nothing else, or traps where the value does.
  lemma {:induction false} ExprCorrect(code: seq<Instruction>, i: nat, e: Expr, stack: seq<int>, vars: Vars)
    requires Consistent(e) && At(code, i, ExprCode(e))
    ensures ExprRuns(code, i, e, stack, vars)
    decreases e
  {
    hide ExprRuns, Cells, PushesWide;
    match e
    case Id(_, _) => LeafRuns(code, i, e, stack, vars);
    case Number(_, _) => LeafRuns(code, i, e, stack, vars);
    case Binary(op, l, r, t) =>
      AtSplits(code, i, ExprCode(l) + ExprCode(r), [Plain(BinaryCode(op, t))]);
      AtSplits(code, i, ExprCode(l), ExprCode(r));
      ExprCorrect(code, i, l, stack, vars);
      if Eval(l, vars).Some? {
        ExprCorrect(code, i + |ExprCode(l)|, r, stack + Cells(Eval(l, vars).value, PushesWide(l)), vars);
      }
      BinaryCase(code, i, e, stack, vars);
    case Neg(x, _) =>
      AtSplits(code, i, ExprCode(x), [Plain(NEG(Wide(x.dataType)))]);
      ExprCorrect(code, i, x, stack, vars);
      UnaryCase(code, i, e, stack, vars);
    case Cast(x, t) =>
      AtSplits(code, i, ExprCode(x), CastCode(x.dataType, t));
      ExprCorrect(code, i, x, stack, vars);
      UnaryCase(code, i, e, stack, vars);
  }

  //// Statements ////

  ghost predicate Reaches(code: seq<Instruction>, from: State, r: Effect, end: nat) {
    match r
    case Normal(vars) => Exec(code, from) == Exec(code, State(end, from.stack, vars))
    case Left(cells, vars) => Exec(code, from) == Returned(from.stack + cells, vars)
    case Trap => Exec(code, from) == Trapped
  }

  lemma OneStoreRuns(code: seq<Instruction>, i: nat, slot: Slot, wide: bool, v: int, rest: seq<int>, vars: Vars)
    requires i < |code| && code[i] == Plain(ST(slot, wide))
    ensures Exec(code, State(i, rest + Cells(v, wide), vars)) == Exec(code, State(i + 1, rest, vars[slot := v]))
  {
    hide Exec, Cells, Pop;
    PopCells(rest, v, wide);
    ExecStep(code, State(i, rest + Cells(v, wide), vars));
  }

  lemma StoreRuns(code: seq<Instruction>, i: nat, slot: Slot, t: DataType, e: Expr, stack: seq<int>, vars: Vars)
    requires Consistent(e) && PushesWide(e) == Wide(t)
    requires At(code, i, ExprCode(e) + [Plain(ST(slot, Wide(t)))])
    ensures Reaches(code, State(i, stack, vars), Put(slot, Eval(e, vars), vars), i + |ExprCode(e)| + 1)
  {
    hide Exec, Cells, Eval, ExprCode, Consistent, PushesWide, At, Wrap, Wrap32, Wrap64;
    var k := i + |ExprCode(e)|;
    AtSplits(code, i, ExprCode(e), [Plain(ST(slot, Wide(t)))]);
    AtLast(code, k, Plain(ST(slot, Wide(t))));
    ExprCorrect(code, i, e, stack, vars);
    match Eval(e, vars)
    case Some(v) =>
      OneStoreRuns(code, k, slot, Wide(t), v, stack, vars);
      assert Put(slot, Eval(e, vars), vars) == Normal(vars[slot := v]);
    case None =>
      assert Put(slot, Eval(e, vars), vars) == Trap;
  }

  lemma ReturnRuns(code: seq<Instruction>, i: nat, e: Expr, stack: seq<int>, vars: Vars)
    requires Consistent(e) && At(code, i, ExprCode(e) + [Plain(RET)])
    ensures Reaches(code, State(i, stack, vars), Perform(ReturnValue(e), vars), i + |ExprCode(e)| + 1)
  {
    hide Exec, Cells, Eval, ExprCode, Consistent, PushesWide, At, PerformAll;
    var k := i + |ExprCode(e)|;
    AtSplits(code, i, ExprCode(e), [Plain(RET)]);
    AtLast(code, k, Plain(RET));
    ExprCorrect(code, i, e, stack, vars);
    match Eval(e, vars)
    case Some(v) =>
      OneReturnRuns(code, k, stack + Cells(v, PushesWide(e)), vars);
      assert Perform(ReturnValue(e), vars) == Left(Cells(v, PushesWide(e)), vars);
    case None =>
      assert Perform(ReturnValue(e), vars) == Trap;
  }

  lemma OneReturnRuns(code: seq<Instruction>, k: nat, stack: seq<int>, vars: Vars)
    requires k < |code| && code[k] == Plain(RET)
    ensures Exec(code, State(k, stack, vars)) == Returned(stack, vars)
  {
    hide Exec;
    ExecStep(code, State(k, stack, vars));
  }

  // A condition and its BRZ: where control goes, with the stack as it was.
  lemma BranchRuns(code: seq<Instruction>, i: nat, c: Expr, jumpAfter: nat, stack: seq<int>, vars: Vars)
    requires Consistent(c) && !PushesWide(c) && At(code, i, ExprCode(c) + [Branch(BRZ, jumpAfter)])
    requires jumpAfter >= i + |ExprCode(c)|
    ensures match Eval(c, vars)
            case None => Exec(code, State(i, stack, vars)) == Trapped
            case Some(v) =>
              Exec(code, State(i, stack, vars))
              == Exec(code, State(if v != 0 then i + |ExprCode(c)| + 1 else jumpAfter + 1, stack, vars))
  {
    hide Exec, Eval, ExprCode, Pop;
    var k := i + |ExprCode(c)|;
    AtSplits(code, i, ExprCode(c), [Branch(BRZ, jumpAfter)]);
    ExprCorrect(code, i, c, stack, vars);
    if Eval(c, vars).Some? {
      PopCells(stack, Eval(c, vars).value, false);
      ExecStep(code, State(k, stack + Cells(Eval(c, vars).value, false), vars));
    }
  }

  lemma JumpRuns(code: seq<Instruction>, k: nat, jumpAfter: nat, stack: seq<int>, vars: Vars)
    requires k < |code| && code[k] == Branch(JMP, jumpAfter) && jumpAfter >= k
    ensures Exec(code, State(k, stack, vars)) == Exec(code, State(jumpAfter + 1, stack, vars))
  {
    hide Exec;
    ExecStep(code, State(k, stack, vars));
  }

  lemma RetRuns(code: seq<Instruction>, k: nat, stack: seq<int>, vars: Vars)
    requires k < |code| && code[k] == Plain(RET)
    ensures Exec(code, State(k, stack, vars)) == Returned(stack + [], vars)
  {
    hide Exec;
    assert stack + [] == stack;
    ExecStep(code, State(k, stack, vars));
  }

  lemma IfElseParts(code: seq<Instruction>, i: nat, c: seq<Instruction>, b: Instruction, t: seq<Instruction>,
                    j: Instruction, f: seq<Instruction>)
    requires At(code, i, c + [b] + t + [j] + f)
    ensures At(code, i, c + [b]) && At(code, i + |c| + 1, t)
    ensures At(code, i + |c| + 1 + |t|, [j]) && At(code, i + |c| + 1 + |t| + 1, f)
  {
    AtSplits(code, i, c + [b] + t + [j], f);
    AtSplits(code, i, c + [b] + t, [j]);
    AtSplits(code, i, c + [b], t);
  }

  // For every nesting of statements, the code placed at its own index ends just
  // past its last instruction with the variables of direct evaluation and the
  // stack as it was, returns with the value returned, or traps.
  lemma {:induction false} StmtCorrect(code: seq<Instruction>, i: nat, s: Stmt, stack: seq<int>, vars: Vars)
    requires ConsistentStmt(s) && At(code, i, StmtCode(s, i))
    ensures Reaches(code, State(i, stack, vars), Perform(s, vars), i + |StmtCode(s, i)|)
    decreases s, 1
  {
    hide Exec, Eval, ExprCode, Consistent, PushesWide, Step;
    match s
    case Decl(_, _) =>
    case Init(slot, t, e) => StoreRuns(code, i, slot, t, e, stack, vars);
    case Assign(slot, t, e) => StoreRuns(code, i, slot, t, e, stack, vars);
    case Block(ss) => StmtsCorrect(code, i, ss, stack, vars);
    case If(c, thn) => IfCorrect(code, i, s, stack, vars);
    case IfElse(c, thn, els) => IfElseCorrect(code, i, s, stack, vars);
    case Return => RetRuns(code, i, stack, vars);
    case ReturnValue(e) => ReturnRuns(code, i, e, stack, vars);
  }

  lemma {:induction false} IfCorrect(code: seq<Instruction>, i: nat, s: Stmt, stack: seq<int>, vars: Vars)
    requires s.If? && ConsistentStmt(s) && At(code, i, StmtCode(s, i))
    ensures Reaches(code, State(i, stack, vars), Perform(s, vars), i + |StmtCode(s, i)|)
    decreases s, 0
  {
    hide Exec, Eval, ExprCode, Consistent, PushesWide, Step;
    var k := i + |ExprCode(s.cond)|;
    var t := StmtsCode(s.thn, k + 1);
    AtSplits(code, i, ExprCode(s.cond) + [Branch(BRZ, k + |t|)], t);
    BranchRuns(code, i, s.cond, k + |t|, stack, vars);
    StmtsCorrect(code, k + 1, s.thn, stack, vars);
  }

  lemma {:induction false} IfElseCorrect(code: seq<Instruction>, i: nat, s: Stmt, stack: seq<int>, vars: Vars)
    requires s.IfElse? && ConsistentStmt(s) && At(code, i, StmtCode(s, i))
    ensures Reaches(code, State(i, stack, vars), Perform(s, vars), i + |StmtCode(s, i)|)
    decreases s, 0
  {
    hide Exec, Eval, ExprCode, Consistent, PushesWide, Step, StmtsCode, PerformAll, ConsistentAll;
    var k := i + |ExprCode(s.cond)|;
    var t := StmtsCode(s.thn, k + 1);
    var j := k + 1 + |t|;
    var f := StmtsCode(s.els, j + 1);
    IfElseParts(code, i, ExprCode(s.cond), Branch(BRZ, j), t, Branch(JMP, j + |f|), f);
    assert code[j] == Branch(JMP, j + |f|);
    hide At;
    BranchRuns(code, i, s.cond, j, stack, vars);
    StmtsCorrect(code, k + 1, s.thn, stack, vars);
    StmtsCorrect(code, j + 1, s.els, stack, vars);
    if PerformAll(s.thn, vars).Normal? {
      JumpRuns(code, j, j + |f|, stack, PerformAll(s.thn, vars).vars);
    }
  }

  lemma {:induction false} StmtsCorrect(code: seq<Instruction>, i: nat, ss: seq<Stmt>, stack: seq<int>, vars: Vars)
    requires ConsistentAll(ss) && At(code, i, StmtsCode(ss, i))
    ensures Reaches(code, State(i, stack, vars), PerformAll(ss, vars), i + |StmtsCode(ss, i)|)
    decreases ss, 0
  {
    hide Exec, Eval, ExprCode, Consistent, PushesWide, Step, Perform, StmtCode, ConsistentStmt;
    if ss != [] {
      var first := StmtCode(ss[0], i);
      AtSplits(code, i, first, StmtsCode(ss[1..], i + |first|));
      StmtCorrect(code, i, ss[0], stack, vars);
      if Perform(ss[0], vars).Normal? {
        StmtsCorrect(code, i + |first|, ss[1..], stack, Perform(ss[0], vars).vars);
      }
    }
  }
}
