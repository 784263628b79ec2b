// Static facts about generated code: operand widths, jump ranges, termination.

module CodeShape {
  import opened Options
  import opened Types
  import opened Machine
  import opened Code

  //// Widths ////

  // The widths of the values on the stack after an instruction, or nothing when
  // it finds a value of another width than it works on. True is two cells.
  function ShapeStep(op: Op, shape: seq<bool>): Option<seq<bool>> {
    match op
    case LDI(_) => Some(shape + [false])
    case LDI_64(_) => Some(shape + [true])
    case LD(_, wide) => Some(shape + [wide])
    case ST(_, wide) => Replace(shape, 1, wide, [])
    case ARITH(_, wide) => Replace(shape, 2, wide, [wide])
    case NEG(wide) => Replace(shape, 1, wide, [wide])
    case CP(_, wide) => Replace(shape, 2, wide, [false])
    case OR => Replace(shape, 2, false, [false])
    case AND => Replace(shape, 2, false, [false])
    case ITOL => Replace(shape, 1, false, [true])
    case LTOI => Replace(shape, 1, true, [false])
    case BRZ => Replace(shape, 1, false, [])
    case JMP => Some(shape)
    case RET => Some(shape)
  }

  // The top one or two values, if they have this width, replaced by others.
  function Replace(shape: seq<bool>, n: nat, wide: bool, result: seq<bool>): Option<seq<bool>>
    requires n == 1 || n == 2
  {
    var k := |shape|;
    if k >= n && shape[k - 1] == wide && shape[k - n] == wide then Some(shape[..k - n] + result) else None
  }

  function ShapeRun(code: seq<Instruction>, shape: seq<bool>): Option<seq<bool>> {
    if code == [] then Some(shape)
    else
      match ShapeStep(code[0].op, shape)
      case None => None
      case Some(next) => ShapeRun(code[1..], next)
  }

  lemma {:induction false} ShapeOfTwo(a: seq<Instruction>, b: seq<Instruction>, shape: seq<bool>)
    ensures ShapeRun(a + b, shape) == match ShapeRun(a, shape) case None => None case Some(s) => ShapeRun(b, s)
  {
    if a == [] {
      assert a + b == b;
    } else {
      assert (a + b)[1..] == a[1..] + b;
      match ShapeStep(a[0].op, shape)
      case None =>
      case Some(next) => ShapeOfTwo(a[1..], b, next);
    }
  }

  lemma ShapeOfOne(op: Op, shape: seq<bool>)
    ensures ShapeRun([Plain(op)], shape) == ShapeStep(op, shape)
  {
  }

  // Every instruction of e's code finds operands of its own width exactly when e
  // is consistent; then the code leaves one value of the width e pushes.
  lemma BinaryShape(op: BinaryOp, l: Expr, r: Expr, t: DataType, shape: seq<bool>)
    requires ShapeRun(ExprCode(l), shape) == if Consistent(l) then Some(shape + [PushesWide(l)]) else None
    requires var s := shape + [PushesWide(l)];
             ShapeRun(ExprCode(r), s) == if Consistent(r) then Some(s + [PushesWide(r)]) else None
    ensures var e := Binary(op, l, r, t);
            ShapeRun(ExprCode(e), shape) == if Consistent(e) then Some(shape + [PushesWide(e)]) else None
  {
    hide ShapeRun, Replace;
    ShapeOfTwo(ExprCode(l) + ExprCode(r), [Plain(BinaryCode(op, t))], shape);
    ShapeOfTwo(ExprCode(l), ExprCode(r), shape);
    ShapeOfOne(BinaryCode(op, t), shape + [PushesWide(l)] + [PushesWide(r)]);
    ShapeOfTwoOperands(shape, PushesWide(l), PushesWide(r), !IsLogical(op) && Wide(t), IsArithmetic(op) && Wide(t));
  }

  lemma {:induction false} ShapeExact(e: Expr, shape: seq<bool>)
    ensures ShapeRun(ExprCode(e), shape) == if Consistent(e) then Some(shape + [PushesWide(e)]) else None
  {
    hide ShapeRun, Replace;
    match e
    case Id(slot, t) => ShapeOfOne(LD(slot, Wide(t)), shape);
    case Number(v, t) => ShapeOfOne(if t == INT then LDI(v) else LDI_64(v), shape);
    case Binary(op, l, r, t) =>
      ShapeExact(l, shape);
      ShapeExact(r, shape + [PushesWide(l)]);
      BinaryShape(op, l, r, t, shape);
    case Neg(x, t) =>
      ShapeOfTwo(ExprCode(x), [Plain(NEG(Wide(x.dataType)))], shape);
      ShapeExact(x, shape);
      ShapeOfOne(NEG(Wide(x.dataType)), shape + [PushesWide(x)]);
      ShapeOfOneOperand(shape, PushesWide(x), Wide(x.dataType), Wide(x.dataType));
    case Cast(x, t) =>
      if x.dataType == t { assert ExprCode(e) == ExprCode(x); }
      ShapeOfTwo(ExprCode(x), CastCode(x.dataType, t), shape);
      ShapeExact(x, shape);
      ShapeOfOne(if t == LONG then ITOL else LTOI, shape + [PushesWide(x)]);
      ShapeOfOneOperand(shape, PushesWide(x), Wide(x.dataType), Wide(t));
  }

  lemma ShapeOfOneOperand(shape: seq<bool>, x: bool, wide: bool, result: bool)
    ensures Replace(shape + [x], 1, wide, [result]) == if x == wide then Some(shape + [result]) else None
  {
    var all := shape + [x];
    assert all[..|all| - 1] == shape && all[|all| - 1] == x;
  }

  lemma ShapeOfTwoOperands(shape: seq<bool>, l: bool, r: bool, wide: bool, result: bool)
    ensures Replace(shape + [l] + [r], 2, wide, [result]) == if l == wide == r then Some(shape + [result]) else None
  {
    var all := shape + [l] + [r];
    assert all[..|all| - 2] == shape && all[|all| - 1] == r && all[|all| - 2] == l;
  }

  lemma ShapeOfExprThen(e: Expr, i: Instruction, wide: bool, shape: seq<bool>)
    requires forall s: seq<bool> :: ShapeStep(i.op, s) == Replace(s, 1, wide, [])
    ensures ShapeRun(ExprCode(e) + [i], shape) == if Consistent(e) && PushesWide(e) == wide then Some(shape) else None
  {
    hide ShapeRun, ShapeStep, Consistent, PushesWide, ExprCode, Replace;
    ShapeOfTwo(ExprCode(e), [i], shape);
    ShapeExact(e, shape);
    ShapeOfInstruction(i, shape + [PushesWide(e)]);
    ShapeWithoutOperand(shape, PushesWide(e), wide);
  }

  lemma ShapeOfInstruction(i: Instruction, shape: seq<bool>)
    ensures ShapeRun([i], shape) == ShapeStep(i.op, shape)
  {
  }

  lemma ShapeWithoutOperand(shape: seq<bool>, x: bool, wide: bool)
    ensures Replace(shape + [x], 1, wide, []) == if x == wide then Some(shape) else None
  {
    var all := shape + [x];
    assert all[..|all| - 1] == shape && all[|all| - 1] == x && shape + [] == shape;
  }

  lemma ShapeOfReturn(e: Expr, shape: seq<bool>)
    ensures ShapeRun(ExprCode(e) + [Plain(RET)], shape).Some? <==> Consistent(e)
  {
    hide Consistent, PushesWide, ExprCode;
    ShapeOfTwo(ExprCode(e), [Plain(RET)], shape);
    ShapeExact(e, shape);
  }

  // For statements too: on any stack, every instruction finds operands of its own width
  // exactly when the statement is consistent.
  lemma {:induction false} StmtShape(s: Stmt, base: nat, shape: seq<bool>)
    ensures ShapeRun(StmtCode(s, base), shape).Some? <==> ConsistentStmt(s)
    decreases s, 1
  {
    hide Consistent, PushesWide, ExprCode, StmtsCode, ConsistentAll, Replace;
    match s
    case Decl(_, _) =>
    case Init(slot, t, e) => ShapeOfExprThen(e, Plain(ST(slot, Wide(t))), Wide(t), shape);
    case Assign(slot, t, e) => ShapeOfExprThen(e, Plain(ST(slot, Wide(t))), Wide(t), shape);
    case Block(ss) => StmtsShape(ss, base, shape);
    case If(_, _) => IfShape(s, base, shape);
    case IfElse(_, _, _) => IfElseShape(s, base, shape);
    case Return =>
    case ReturnValue(e) => ShapeOfReturn(e, shape);
  }

  lemma {:induction false} IfShape(s: Stmt, base: nat, shape: seq<bool>)
    requires s.If?
    ensures ShapeRun(StmtCode(s, base), shape).Some? <==> ConsistentStmt(s)
    decreases s, 0
  {
    hide Consistent, PushesWide, ExprCode, StmtsCode, ConsistentAll, ShapeRun, Replace;
    var k := base + |ExprCode(s.cond)|;
    var t := StmtsCode(s.thn, k + 1);
    ShapeOfTwo(ExprCode(s.cond) + [Branch(BRZ, k + |t|)], t, shape);
    ShapeOfExprThen(s.cond, Branch(BRZ, k + |t|), false, shape);
    StmtsShape(s.thn, k + 1, shape);
  }

  lemma {:induction false} IfElseShape(s: Stmt, base: nat, shape: seq<bool>)
    requires s.IfElse?
    ensures ShapeRun(StmtCode(s, base), shape).Some? <==> ConsistentStmt(s)
    decreases s, 0
  {
    hide Consistent, PushesWide, ExprCode, StmtsCode, ConsistentAll, ShapeRun, Replace;
    var k := base + |ExprCode(s.cond)|;
    var t := StmtsCode(s.thn, k + 1);
    var j := k + 1 + |t|;
    var f := StmtsCode(s.els, j + 1);
    var c, b := ExprCode(s.cond) + [Branch(BRZ, j)], Branch(JMP, j + |f|);
    ShapeOfTwo(c + t + [b], f, shape);
    ShapeOfTwo(c + t, [b], shape);
    ShapeOfTwo(c, t, shape);
    ShapeOfExprThen(s.cond, Branch(BRZ, j), false, shape);
    StmtsShape(s.thn, k + 1, shape);
    if ShapeRun(t, shape).Some? {
      var next := ShapeRun(t, shape).value;
      ShapeOfInstruction(b, next);
      StmtsShape(s.els, j + 1, next);
    }
  }

  lemma {:induction false} StmtsShape(ss: seq<Stmt>, base: nat, shape: seq<bool>)
    ensures ShapeRun(StmtsCode(ss, base), shape).Some? <==> ConsistentAll(ss)
    decreases ss, 0
  {
    hide StmtCode, ConsistentStmt;
    if ss != [] {
      var first := StmtCode(ss[0], base);
      StmtShape(ss[0], base, shape);
      ShapeOfTwo(first, StmtsCode(ss[1..], base + |first|), shape);
      if ShapeRun(first, shape).Some? {
        StmtsShape(ss[1..], base + |first|, ShapeRun(first, shape).value);
      }
    }
  }

  //// Jumps ////

  predicate IsJump(i: Instruction) { i.op == BRZ || i.op == JMP }

  // Placed at `base`, every branch goes strictly forward and no further than just
  // past the code; nothing else jumps.
  predicate JumpsWithin(code: seq<Instruction>, base: nat) {
    forall i :: 0 <= i < |code| ==>
      code[i].jumpTo == -1 && code[i].labelName == "" && code[i].target == "" &&
      if IsJump(code[i]) then base + i < code[i].jumpAfter + 1 <= base + |code| else code[i].jumpAfter == -1
  }

  predicate NoJumps(code: seq<Instruction>) {
    forall i :: 0 <= i < |code| ==> !IsJump(code[i]) && code[i] == Plain(code[i].op)
  }

  lemma {:induction false} ExprHasNoJumps(e: Expr)
    ensures NoJumps(ExprCode(e)) && |ExprCode(e)| > 0
  {
    match e
    case Id(_, _) =>
    case Number(_, _) =>
    case Binary(_, l, r, _) => ExprHasNoJumps(l); ExprHasNoJumps(r);
    case Neg(x, _) => ExprHasNoJumps(x);
    case Cast(x, _) => ExprHasNoJumps(x);
  }

  lemma IfJumps(c: seq<Instruction>, t: seq<Instruction>, base: nat)
    requires NoJumps(c) && JumpsWithin(t, base + |c| + 1)
    ensures JumpsWithin(c + [Branch(BRZ, base + |c| + |t|)] + t, base)
  {
    var all := c + [Branch(BRZ, base + |c| + |t|)] + t;
    forall i | 0 <= i < |all|
      ensures all[i].jumpTo == -1 && all[i].labelName == "" && all[i].target == ""
      ensures if IsJump(all[i]) then base + i < all[i].jumpAfter + 1 <= base + |all| else all[i].jumpAfter == -1
    {
      if i > |c| { assert all[i] == t[i - |c| - 1]; }
    }
  }

  lemma IfElseJumps(c: seq<Instruction>, t: seq<Instruction>, f: seq<Instruction>, base: nat)
    requires NoJumps(c) && JumpsWithin(t, base + |c| + 1) && JumpsWithin(f, base + |c| + 2 + |t|)
    ensures var j := base + |c| + 1 + |t|;
            JumpsWithin(c + [Branch(BRZ, j)] + t + [Branch(JMP, j + |f|)] + f, base)
  {
    var j := base + |c| + 1 + |t|;
    var all := c + [Branch(BRZ, j)] + t + [Branch(JMP, j + |f|)] + f;
    forall i | 0 <= i < |all|
      ensures all[i].jumpTo == -1 && all[i].labelName == "" && all[i].target == ""
      ensures if IsJump(all[i]) then base + i < all[i].jumpAfter + 1 <= base + |all| else all[i].jumpAfter == -1
    {
      if |c| < i < |c| + 1 + |t| {
        assert all[i] == t[i - |c| - 1];
      } else if i > |c| + 1 + |t| {
        assert all[i] == f[i - |c| - 2 - |t|];
      }
    }
  }

  lemma ExprThenJumps(c: seq<Instruction>, op: Op, base: nat)
    requires NoJumps(c) && op != BRZ && op != JMP
    ensures JumpsWithin(c + [Plain(op)], base)
  {
  }

  lemma NothingJumps(base: nat)
    ensures JumpsWithin([], base) && JumpsWithin([Plain(RET)], base)
  {
  }

  lemma {:induction false} StmtJumps(s: Stmt, base: nat)
    ensures JumpsWithin(StmtCode(s, base), base)
    decreases s, 1
  {
    hide JumpsWithin, ExprCode, NoJumps, StmtsCode;
    NothingJumps(base);
    match s
    case Decl(_, _) =>
    case Init(slot, t, e) => ExprHasNoJumps(e); ExprThenJumps(ExprCode(e), ST(slot, Wide(t)), base);
    case Assign(slot, t, e) => ExprHasNoJumps(e); ExprThenJumps(ExprCode(e), ST(slot, Wide(t)), base);
    case Block(ss) => StmtsJumps(ss, base);
    case If(c, thn) =>
      ExprHasNoJumps(c);
      StmtsJumps(thn, base + |ExprCode(c)| + 1);
      IfJumps(ExprCode(c), StmtsCode(thn, base + |ExprCode(c)| + 1), base);
    case IfElse(_, _, _) => IfElseStmtJumps(s, base);
    case Return =>
    case ReturnValue(e) => ExprHasNoJumps(e); ExprThenJumps(ExprCode(e), RET, base);
  }

  lemma {:induction false} IfElseStmtJumps(s: Stmt, base: nat)
    requires s.IfElse?
    ensures JumpsWithin(StmtCode(s, base), base)
    decreases s, 0
  {
    hide JumpsWithin, ExprCode, NoJumps, StmtsCode;
    var k := base + |ExprCode(s.cond)|;
    var t := StmtsCode(s.thn, k + 1);
    ExprHasNoJumps(s.cond);
    StmtsJumps(s.thn, k + 1);
    StmtsJumps(s.els, k + 2 + |t|);
    IfElseJumps(ExprCode(s.cond), t, StmtsCode(s.els, k + 2 + |t|), base);
  }

  lemma {:induction false} StmtsJumps(ss: seq<Stmt>, base: nat)
    ensures JumpsWithin(StmtsCode(ss, base), base)
    decreases ss, 0
  {
    if ss != [] {
      StmtJumps(ss[0], base);
      StmtsJumps(ss[1..], base + |StmtCode(ss[0], base)|);
    }
  }
}
