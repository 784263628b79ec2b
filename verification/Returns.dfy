// What a call leaves when the function's declared type is asked for, and three functions the
// compiler accepts that do not keep to their types.

module Returns {
  import opened Options
  import opened Words
  import opened Types
  import opened Machine
  import opened Code
  import opened CodeShape
  import opened Functions
  import opened Scopes
  import opened Naming

  //// Returns of the declared width ////

  // Every return leaves as many cells as a function of this type is to leave: none when
  // it is void.
  predicate ReturnsDeclared(s: Stmt, ret: Option<DataType>)
    decreases s, 1
  {
    match s
    case Block(ss) => AllReturnDeclared(ss, ret)
    case If(_, thn) => AllReturnDeclared(thn, ret)
    case IfElse(_, thn, els) => AllReturnDeclared(thn, ret) && AllReturnDeclared(els, ret)
    case Return => ret == None
    case ReturnValue(e) => ret.Some? && PushesWide(e) == Wide(ret.value)
    case _ => true
  }

  predicate AllReturnDeclared(ss: seq<Stmt>, ret: Option<DataType>)
    decreases ss, 0
  {
    ss == [] || (ReturnsDeclared(ss[0], ret) && AllReturnDeclared(ss[1..], ret))
  }

  predicate IsSourceReturn(s: SStmt) { s.SReturn? || s.SReturnValue? }

  // The type of what a source return returns, if it returns anything.
  function ReturnType(s: SStmt, env: Names): Option<DataType>
    requires IsSourceReturn(s)
  {
    if s.SReturn? then None else Some(TypeOf(s.value, env))
  }

  // The parser's check compares the node's type, and lets a return without a value pass in
  // a function of any type. An accepted return leaves the cells of the declared type
  // exactly when it returns that type. When not, nothing is returned where a value is
  // declared, or an int where a long is: a comparison of longs, say.
  lemma ReturnExact(s: SStmt, f: Front, ret: Option<DataType>, env: Names, vars: Vars)
    requires IsSourceReturn(s) && Agree(f.scopes, env, vars) && (s.SReturnValue? ==> Literals(s.value))
    requires ElabStmt(s, f, ret).Ok?
    ensures var x := ElabStmt(s, f, ret).value.0;
            ConsistentStmt(x) ==> (ReturnsDeclared(x, ret) <==> ReturnType(s, env) == ret)
    ensures var x, t := ElabStmt(s, f, ret).value.0, ReturnType(s, env);
            ConsistentStmt(x) && t != ret ==> ret.Some? && (t == None || (t == Some(INT) && ret == Some(LONG)))
  {
    hide Agree, Literals, ElabExpr, Consistent, PushesWide;
    if s.SReturnValue? { ExprMeans(s.value, f.scopes, env, vars); }
  }

  predicate CellsOf(cells: seq<int>, ret: Option<DataType>) {
    |cells| == match ret case None => 0 case Some(t) => Width(Wide(t))
  }

  lemma {:induction false} LeftWidth(s: Stmt, ret: Option<DataType>, vars: Vars)
    requires ReturnsDeclared(s, ret) && Perform(s, vars).Left?
    ensures CellsOf(Perform(s, vars).cells, ret)
    decreases s, 1
  {
    hide Eval, PushesWide;
    match s
    case Block(ss) => LeftWidthAll(ss, ret, vars);
    case If(_, thn) => LeftWidthAll(thn, ret, vars);
    case IfElse(c, thn, els) =>
      if Eval(c, vars).value != 0 { LeftWidthAll(thn, ret, vars); } else { LeftWidthAll(els, ret, vars); }
    case _ =>
  }

  lemma {:induction false} LeftWidthAll(ss: seq<Stmt>, ret: Option<DataType>, vars: Vars)
    requires AllReturnDeclared(ss, ret) && PerformAll(ss, vars).Left?
    ensures CellsOf(PerformAll(ss, vars).cells, ret)
    decreases ss, 0
  {
    if Perform(ss[0], vars).Normal? {
      LeftWidthAll(ss[1..], ret, Perform(ss[0], vars).vars);
    } else {
      LeftWidth(ss[0], ret, vars);
    }
  }

  // A call leaves what the function is declared with: the cells of a value of the declared
  // type, or nothing when it is void.
  lemma DeclaredResult(sf: SFunction, fn: Function, values: seq<int>, stack: seq<int>, vars: Vars)
    requires ElabFunction(sf) == Ok(fn) && LiteralsInAll(sf.body) && ConsistentAll(fn.body)
    requires ArgsFit(sf.params, values) && FreshFrame(vars)
    requires AllReturnDeclared(fn.body, sf.ret)
    ensures |fn.args| == |values|
    ensures var r := Steps(FunctionCode(fn), State(0, stack + ArgCells(fn.args, values), vars), |FunctionCode(fn)|);
            match Call(sf, values)
            case NTrap => r == Trapped
            case NLeft(Some((t, v))) => sf.ret == Some(t) && r.Returned? && r.stack == stack + Cells(v, Wide(t))
            case _ => sf.ret == None && r.Returned? && r.stack == stack
  {
    hide ConsistentAll, LiteralsInAll, PerformAll, Steps, FunctionCode, Cells, BindArgs, ElabFunction, Call, FreshFrame;
    CompiledFunctionCorrect(sf, fn, values, stack, vars);
    AcceptedEndsInReturn(sf, fn);
    FunctionCorrect(fn, values, stack, vars);
    var effect := PerformAll(fn.body, BindArgs(fn.args, values, vars));
    if !Call(sf, values).NTrap? {
      assert effect.Left?;
      LeftWidthAll(fn.body, sf.ret, BindArgs(fn.args, values, vars));
      match Call(sf, values)
      case NLeft(Some((t, v))) =>
        SameSuffix(stack, effect.cells, Cells(v, Wide(t)));
        CellsTell(v, t, sf.ret);
      case _ =>
        assert |stack + effect.cells| == |stack|;
    }
  }

  lemma AcceptedEndsInReturn(sf: SFunction, fn: Function)
    requires ElabFunction(sf) == Ok(fn)
    ensures EndsInReturn(fn.body)
  {
    hide ElabAll;
    var body := ElabAll(sf.body, DeclareArgs(sf.params).value, sf.ret).value.0;
    AddFuncEndsInReturn(sf.ret == None, body);
  }

  lemma SameSuffix(a: seq<int>, b: seq<int>, c: seq<int>)
    requires a + b == a + c
    ensures b == c
  {
    assert (a + b)[|a|..] == b && (a + c)[|a|..] == c;
  }

  lemma CellsTell(v: int, t: DataType, ret: Option<DataType>)
    requires CellsOf(Cells(v, Wide(t)), ret)
    ensures ret == Some(t)
  {
  }

  //// Widths of a whole function ////

  function Widths(args: seq<Parameter>): seq<bool> {
    seq(|args|, i requires 0 <= i < |args| => Wide(args[i].dataType))
  }

  lemma {:induction false} PrologueShape(args: seq<Parameter>, shape: seq<bool>)
    ensures ShapeRun(PrologueCode(args), shape + Widths(args)) == Some(shape)
    decreases |args|
  {
    if args == [] {
      assert shape + Widths(args) == shape;
    } else {
      var n := |args| - 1;
      var a := args[n];
      var st := Plain(ST(ArgVar(a.position), Wide(a.dataType)));
      assert shape + Widths(args) == shape + Widths(args[..n]) + [Wide(a.dataType)];
      ShapeOfTwo([st], PrologueCode(args[..n]), shape + Widths(args));
      ShapeOfInstruction(st, shape + Widths(args));
      ShapeWithoutOperand(shape + Widths(args[..n]), Wide(a.dataType), Wide(a.dataType));
      PrologueShape(args[..n], shape);
    }
  }

  lemma {:induction false} ShapeSeesOps(code: seq<Instruction>, code': seq<Instruction>, shape: seq<bool>)
    requires |code| == |code'| && forall i :: 0 <= i < |code| ==> code[i].op == code'[i].op
    ensures ShapeRun(code, shape) == ShapeRun(code', shape)
  {
    if code != [] && ShapeStep(code[0].op, shape).Some? {
      ShapeSeesOps(code[1..], code'[1..], ShapeStep(code[0].op, shape).value);
    }
  }

  // Called with arguments of its parameters' widths, every instruction of a function
  // finds operands of its own width exactly when the body is consistent.
  lemma FunctionShape(f: Function, shape: seq<bool>)
    ensures ShapeRun(FunctionCode(f), shape + Widths(f.args)).Some? <==> ConsistentAll(f.body)
  {
    hide ShapeRun, StmtsCode, PrologueCode, ConsistentAll, Widths;
    ShapeSeesOps(FunctionCode(f), Body(f), shape + Widths(f.args));
    PrologueShape(f.args, shape);
    StmtsShape(f.body, |PrologueCode(f.args)|, shape);
    ShapeOfTwo(PrologueCode(f.args), StmtsCode(f.body, |PrologueCode(f.args)|), shape + Widths(f.args));
  }

  //// Three functions that are accepted all the same ////

  // long f(long a) { long x = a is a; return x; }
  const STORED: SFunction := SFunction("f", [SParameter(LONG, "a")], Some(LONG), [
    SInit(LONG, "x", SBinary(EQ, SId("a"), SId("a"))),
    SReturnValue(SId("x"))
  ])

  // long f(long a) { return a is a; }
  const RETURNED: SFunction := SFunction("f", [SParameter(LONG, "a")], Some(LONG), [
    SReturnValue(SBinary(EQ, SId("a"), SId("a")))
  ])

  const SAME: Expr := Binary(EQ, Id(ArgVar(0), LONG), Id(ArgVar(0), LONG), LONG)

  const STORED_BODY: seq<Stmt> := [Init(LocalVar(0), LONG, SAME), ReturnValue(Id(LocalVar(0), LONG))]

  const A: Front := Front([map["a" := Identifier(ArgVar(0), LONG)]], 0, 1)

  lemma DeclaredA()
    ensures DeclareArgs([SParameter(LONG, "a")]) == Ok(A)
    ensures Parameters([SParameter(LONG, "a")]) == [Parameter(0, LONG)]
  {
    var ps := [SParameter(LONG, "a")];
    assert ps[..0] == [] && DeclareArgs([]) == Ok(Front([map[]], 0, 0));
    assert map[]["a" := Identifier(ArgVar(0), LONG)] == map["a" := Identifier(ArgVar(0), LONG)];
    assert [map[]][0 := map["a" := Identifier(ArgVar(0), LONG)]] == [map["a" := Identifier(ArgVar(0), LONG)]];
  }

  lemma SameElab()
    ensures ElabExpr(SBinary(EQ, SId("a"), SId("a")), A.scopes) == Ok(SAME)
    ensures Consistent(SAME) && !PushesWide(SAME)
  {
    assert Lookup(A.scopes, "a") == Some(Identifier(ArgVar(0), LONG));
  }

  lemma OneStmt(s: SStmt, f: Front, ret: Option<DataType>, x: Stmt, f': Front, rest: seq<SStmt>, rest': seq<Stmt>,
                f2: Front)
    requires ElabStmt(s, f, ret) == Ok((x, f')) && ElabAll(rest, f', ret) == Ok((rest', f2))
    ensures ElabAll([s] + rest, f, ret) == Ok(([x] + rest', f2))
  {
    assert ([s] + rest)[1..] == rest;
  }

  lemma ReturnedElab()
    ensures ElabFunction(RETURNED) == Ok(Function("f", [Parameter(0, LONG)], [ReturnValue(SAME)]))
  {
    DeclaredA();
    SameElab();
    hide DeclareArgs, ElabExpr, Parameters;
    OneStmt(RETURNED.body[0], A, Some(LONG), ReturnValue(SAME), A, [], [], A);
    assert RETURNED.body == [RETURNED.body[0]] + [] && [ReturnValue(SAME)] + [] == [ReturnValue(SAME)];
  }

  lemma StoredElab()
    ensures ElabFunction(STORED) == Ok(Function("f", [Parameter(0, LONG)], STORED_BODY))
  {
    DeclaredA();
    SameElab();
    var b := Front([map["a" := Identifier(ArgVar(0), LONG), "x" := Identifier(LocalVar(0), LONG)]], 1, 1);
    assert A.scopes[0]["x" := Identifier(LocalVar(0), LONG)] == b.scopes[0];
    assert A.scopes[0 := b.scopes[0]] == b.scopes;
    assert Declare(A, "x", LONG, false) == Ok((b, Identifier(LocalVar(0), LONG)));
    assert CheckAssignmentType(LONG, SAME) == Ok(SAME);
    assert Lookup(b.scopes, "x") == Some(Identifier(LocalVar(0), LONG));
    hide DeclareArgs, Parameters, Declare, CheckAssignmentType;
    assert ElabStmt(STORED.body[1], b, Some(LONG)) == Ok((STORED_BODY[1], b));
    assert ElabStmt(STORED.body[0], A, Some(LONG)) == Ok((STORED_BODY[0], b));
    hide ElabExpr, ElabStmt;
    OneStmt(STORED.body[1], b, Some(LONG), STORED_BODY[1], b, [], [], b);
    assert [STORED.body[1]] + [] == [STORED.body[1]] && [STORED_BODY[1]] + [] == [STORED_BODY[1]];
    OneStmt(STORED.body[0], A, Some(LONG), STORED_BODY[0], b, [STORED.body[1]], [STORED_BODY[1]], b);
    assert STORED.body == [STORED.body[0]] + [STORED.body[1]] && STORED_BODY == [STORED_BODY[0]] + [STORED_BODY[1]];
  }

  // Comparing its argument with itself leaves a one on the stack.
  lemma SameRuns(code: seq<Instruction>, i: nat, v: int, stack: seq<int>, vars: Vars)
    requires At(code, i, ExprCode(SAME))
    ensures Exec(code, State(i, stack, vars[ArgVar(0) := v]))
         == Exec(code, State(i + 3, stack + [1], vars[ArgVar(0) := v]))
  {
    SameElab();
    hide Exec;
    ExprCorrect(code, i, SAME, stack, vars[ArgVar(0) := v]);
    assert Eval(SAME, vars[ArgVar(0) := v]) == Some(1);
    assert |ExprCode(SAME)| == 3;
  }

  // The caller gets one cell where it expects the two of a long.
  lemma ComparisonReturned(v: int, stack: seq<int>, vars: Vars)
    requires Is64(v) && FreshFrame(vars)
    ensures ElabFunction(RETURNED).Ok?
    ensures var fn := ElabFunction(RETURNED).value;
            ConsistentAll(fn.body) && !AllReturnDeclared(fn.body, Some(LONG))
            && Steps(FunctionCode(fn), State(0, stack + Cells(v, true), vars), |FunctionCode(fn)|)
               == Returned(stack + [1], vars[ArgVar(0) := v])
  {
    ReturnedElab();
    SameElab();
    hide ElabFunction, Steps, FunctionCode, FreshFrame;
    var fn := ElabFunction(RETURNED).value;
    assert [ReturnValue(SAME)][1..] == [];
    assert ArgCells(fn.args, [v]) == Cells(v, true) by { assert [v][..0] == [] && fn.args[..0] == []; OneArg(v, vars); }
    OneArg(v, vars);
    FunctionCorrect(fn, [v], stack, vars);
    PerformOne(ReturnValue(SAME), vars[ArgVar(0) := v]);
    assert Eval(SAME, vars[ArgVar(0) := v]) == Some(1);
  }

  lemma OneArg(v: int, vars: Vars)
    ensures ArgCells([Parameter(0, LONG)], [v]) == Cells(v, true)
    ensures BindArgs([Parameter(0, LONG)], [v], vars) == vars[ArgVar(0) := v]
  {
    var args, values := [Parameter(0, LONG)], [v];
    assert args[..0] == [] && values[..0] == [];
    assert ArgCells([], []) + Cells(v, true) == Cells(v, true);
  }

  // The store pops two cells where there is one: the other is the caller's.
  lemma ComparisonStored(v: int, stack: seq<int>, vars: Vars)
    requires Is64(v)
    ensures ElabFunction(STORED).Ok?
    ensures var fn := ElabFunction(STORED).value;
            var r := Steps(FunctionCode(fn), State(0, stack + Cells(v, true), vars), |FunctionCode(fn)|);
            !ConsistentAll(fn.body)
            && if stack == [] then r == Stuck
               else
                 var n := |stack| - 1;
                 r.Returned? && r.stack == stack[..n] + Cells(Wrap64(Join(stack[n], 1)), true)
  {
    StoredElab();
    var fn := Function("f", [Parameter(0, LONG)], STORED_BODY);
    StoredIsInconsistent();
    StoredCode();
    hide ElabFunction, FunctionCode, Steps, ConsistentAll, ForwardOnly, Cells, Exec;
    FunctionIsForward(fn);
    ForwardHalts(FunctionCode(fn), State(0, stack + Cells(v, true), vars), |FunctionCode(fn)|);
    StoredRuns(FunctionCode(fn), v, stack, vars);
  }

  lemma StoredIsInconsistent()
    ensures !ConsistentAll(STORED_BODY) && EndsInReturn(STORED_BODY)
  {
    SameElab();
  }

  lemma StoredCode()
    ensures FunctionCode(Function("f", [Parameter(0, LONG)], STORED_BODY)) ==
            [Plain(ST(ArgVar(0), true)).(labelName := "f")] + ExprCode(SAME)
            + [Plain(ST(LocalVar(0), true)), Plain(LD(LocalVar(0), true)), Plain(RET)]
  {
    var args := [Parameter(0, LONG)];
    assert args[..0] == [];
    assert PrologueCode(args) == [Plain(ST(ArgVar(0), true))];
    assert STORED_BODY[1..] == [STORED_BODY[1]] && STORED_BODY[1..][1..] == [];
    hide ExprCode;
    var init, ret := ExprCode(SAME) + [Plain(ST(LocalVar(0), true))], ExprCode(Id(LocalVar(0), LONG)) + [Plain(RET)];
    assert StmtsCode(STORED_BODY, 1) == init + StmtsCode([STORED_BODY[1]], 1 + |init|);
    assert StmtsCode([STORED_BODY[1]], 1 + |init|) == ret + [];
    assert ExprCode(Id(LocalVar(0), LONG)) == [Plain(LD(LocalVar(0), true))] by { LoadCode(); }
  }

  lemma LoadCode()
    ensures ExprCode(Id(LocalVar(0), LONG)) == [Plain(LD(LocalVar(0), true))]
  {
  }

  // The last three instructions of it, with a single cell where two are stored.
  lemma StoreAndReturn(code: seq<Instruction>, stack: seq<int>, vars: Vars)
    requires |code| == 7 && code[4] == Plain(ST(LocalVar(0), true))
    requires code[5] == Plain(LD(LocalVar(0), true)) && code[6] == Plain(RET)
    ensures var r := Exec(code, State(4, stack + [1], vars));
            if stack == [] then r == Stuck
            else
              var n := |stack| - 1;
              r.Returned? && r.stack == stack[..n] + Cells(Wrap64(Join(stack[n], 1)), true)
  {
    hide Exec, Cells, Join, Wrap64;
    ExecStep(code, State(4, stack + [1], vars));
    if stack != [] {
      var n := |stack| - 1;
      var all := stack + [1];
      assert all[..|all| - 2] == stack[..n] && all[|all| - 2] == stack[n];
      var vars2 := vars[LocalVar(0) := Join(stack[n], 1)];
      LoadAndReturn(code, stack[..n], vars2);
    }
  }

  lemma LoadAndReturn(code: seq<Instruction>, stack: seq<int>, vars: Vars)
    requires |code| == 7 && code[5] == Plain(LD(LocalVar(0), true)) && code[6] == Plain(RET)
    ensures Exec(code, State(5, stack, vars)) ==
            Returned(stack + Cells(Wrap64(Get(vars, LocalVar(0))), true), vars)
  {
    hide Exec, Cells, Wrap64;
    ExecStep(code, State(5, stack, vars));
    ExecStep(code, State(6, stack + Cells(Wrap64(Get(vars, LocalVar(0))), true), vars));
  }

  lemma StoredRuns(code: seq<Instruction>, v: int, stack: seq<int>, vars: Vars)
    requires code == [Plain(ST(ArgVar(0), true)).(labelName := "f")] + ExprCode(SAME)
                     + [Plain(ST(LocalVar(0), true)), Plain(LD(LocalVar(0), true)), Plain(RET)]
    ensures var r := Exec(code, State(0, stack + Cells(v, true), vars));
            if stack == [] then r == Stuck
            else
              var n := |stack| - 1;
              r.Returned? && r.stack == stack[..n] + Cells(Wrap64(Join(stack[n], 1)), true)
  {
    assert |ExprCode(SAME)| == 3 && code[1..4] == ExprCode(SAME);
    hide Exec, Cells, Join, Wrap64, ExprCode;
    PopCells(stack, v, true);
    ExecStep(code, State(0, stack + Cells(v, true), vars));
    SameRuns(code, 1, v, stack, vars);
    StoreAndReturn(code, stack, vars[ArgVar(0) := v]);
  }

  // long f() { return; }
  const SILENT: SFunction := SFunction("f", [], Some(LONG), [SReturn])

  lemma SilentElab()
    ensures ElabFunction(SILENT) == Ok(Function("f", [], [Return]))
  {
    var f := Front([map[]], 0, 0);
    assert DeclareArgs([]) == Ok(f) && Parameters([]) == [];
    OneStmt(SReturn, f, Some(LONG), Return, f, [], [], f);
    assert [SReturn] + [] == [SReturn] && [Return] + [] == [Return];
  }

  // Nothing is left where the caller expects the two cells of a long.
  lemma NothingReturned(stack: seq<int>, vars: Vars)
    ensures ElabFunction(SILENT) == Ok(Function("f", [], [Return]))
    ensures ConsistentAll([Return]) && !AllReturnDeclared([Return], Some(LONG))
    ensures var fn := Function("f", [], [Return]);
            Steps(FunctionCode(fn), State(0, stack, vars), |FunctionCode(fn)|) == Returned(stack, vars)
  {
    SilentElab();
    hide ElabFunction, Steps, FunctionCode;
    var fn := Function("f", [], [Return]);
    assert [Return][1..] == [];
    assert stack + ArgCells(fn.args, []) == stack && BindArgs(fn.args, [], vars) == vars && stack + [] == stack;
    FunctionCorrect(fn, [], stack, vars);
    PerformOne(Return, vars);
  }
}
