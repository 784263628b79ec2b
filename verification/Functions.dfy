// Whole functions: argument prologue, body and final return
// (compiler/code_generator.cpp:83-116, compiler/compiler.cpp:110-138).

module Functions {
  import opened Options
  import opened Words
  import opened Types
  import opened Machine
  import opened Code
  import opened CodeShape

  datatype Parameter = Parameter(position: nat, dataType: DataType)

  datatype Function = Function(name: string, args: seq<Parameter>, body: seq<Stmt>)

  // Arguments are consumed from the stack, the last one first.
  function PrologueCode(args: seq<Parameter>): seq<Instruction> {
    if args == [] then []
    else
      var a := args[|args| - 1];
      [Plain(ST(ArgVar(a.position), Wide(a.dataType)))] + PrologueCode(args[..|args| - 1])
  }

  // The code of f when its buffer already holds `base` instructions.
  function BodyAt(f: Function, base: nat): seq<Instruction> {
    PrologueCode(f.args) + StmtsCode(f.body, base + |PrologueCode(f.args)|)
  }

  function Body(f: Function): seq<Instruction> { BodyAt(f, 0) }

  // The first instruction of a buffer carries the function's name.
  function Named(code: seq<Instruction>, name: string): seq<Instruction> {
    if code == [] then [] else code[0 := code[0].(labelName := name)]
  }

  function FunctionCode(f: Function): seq<Instruction> { Named(Body(f), f.name) }

  // Buffers are kept by function name; system functions have none.
  predicate IsSystemName(name: string) { |name| > 2 && name[0] == '_' && name[1] == '_' }

  type Buffers = map<string, seq<Instruction>>

  function Buffer(buffers: Buffers, name: string): seq<Instruction> {
    if name in buffers then buffers[name] else []
  }

  function InOrder(buffers: Buffers, order: seq<string>): (r: seq<seq<Instruction>>)
    ensures |r| == |order|
  {
    seq(|order|, i requires 0 <= i < |order| => Buffer(buffers, order[i]))
  }

  function WithFunction(buffers: Buffers, f: Function): Buffers {
    if IsSystemName(f.name) then buffers else
    var b := Buffer(buffers, f.name);
    buffers[f.name := Named(b + BodyAt(f, |b|), f.name)]
  }

  function Translated(fs: seq<Function>): Buffers {
    if fs == [] then map[] else WithFunction(Translated(fs[..|fs| - 1]), fs[|fs| - 1])
  }

  predicate DistinctNames(fs: seq<Function>) {
    forall i, j :: 0 <= i < j < |fs| ==> fs[i].name != fs[j].name
  }

  predicate HasName(fs: seq<Function>, name: string) {
    exists i :: 0 <= i < |fs| && fs[i].name == name
  }

  // A buffer belongs to functions that are not system functions.
  lemma {:induction false} BufferNames(fs: seq<Function>)
    ensures forall name :: name in Translated(fs) <==> !IsSystemName(name) && HasName(fs, name)
  {
    if fs != [] {
      var n := |fs| - 1;
      BufferNames(fs[..n]);
      forall name
        ensures HasName(fs, name) <==> fs[n].name == name || HasName(fs[..n], name)
      {
        if i :| 0 <= i < n && fs[i].name == name { assert fs[..n][i].name == name; }
      }
    }
  }

  // With one function per name, each buffer is that function's code and no more.
  lemma {:induction false} BuffersHoldFunctions(fs: seq<Function>)
    requires DistinctNames(fs)
    ensures forall i :: 0 <= i < |fs| && !IsSystemName(fs[i].name) ==>
              fs[i].name in Translated(fs) && Translated(fs)[fs[i].name] == FunctionCode(fs[i])
  {
    hide FunctionCode;
    if fs != [] {
      var n := |fs| - 1;
      BuffersHoldFunctions(fs[..n]);
      BufferNames(fs[..n]);
      assert fs[n].name !in Translated(fs[..n]);
      if !IsSystemName(fs[n].name) { NewBuffer(Translated(fs[..n]), fs[n]); }
    }
  }

  predicate FirstOfName(fs: seq<Function>, i: nat)
    requires i < |fs|
  {
    forall j :: 0 <= j < i ==> fs[j].name != fs[i].name
  }

  // Nothing rejects two functions of one name. Whatever the list, a buffer starts with the
  // code of the first function of its name; the others follow.
  lemma {:induction false} BufferStartsWith(fs: seq<Function>, i: nat)
    requires i < |fs| && FirstOfName(fs, i) && !IsSystemName(fs[i].name) && |FunctionCode(fs[i])| > 0
    ensures fs[i].name in Translated(fs) && FunctionCode(fs[i]) <= Translated(fs)[fs[i].name]
  {
    hide FunctionCode, WithFunction;
    var n := |fs| - 1;
    if i == n {
      BufferNames(fs[..n]);
      NewBuffer(Translated(fs[..n]), fs[n]);
    } else {
      BufferStartsWith(fs[..n], i);
      BufferGrows(Translated(fs[..n]), fs[n], fs[i].name);
      NamedFirst(fs[i]);
      var b := Translated(fs[..n])[fs[i].name];
      assert b[0] == FunctionCode(fs[i])[0];
      NamedStays(b, fs[i].name);
    }
  }

  lemma NewBuffer(buffers: Buffers, f: Function)
    requires !IsSystemName(f.name) && f.name !in buffers
    ensures f.name in WithFunction(buffers, f) && WithFunction(buffers, f)[f.name] == FunctionCode(f)
  {
    assert [] + BodyAt(f, 0) == Body(f);
  }

  lemma BufferGrows(buffers: Buffers, f: Function, name: string)
    requires name in buffers && |buffers[name]| > 0
    ensures name in WithFunction(buffers, f)
    ensures var b := WithFunction(buffers, f)[name]; buffers[name] <= b || Named(buffers[name], name) <= b
  {
    hide BodyAt;
  }

  lemma NamedFirst(f: Function)
    ensures |FunctionCode(f)| > 0 ==> FunctionCode(f)[0].labelName == f.name
  {
  }

  lemma NamedStays(code: seq<Instruction>, name: string)
    requires code != [] && code[0].labelName == name
    ensures Named(code, name) == code
  {
  }

  predicate IsReturn(s: Stmt) { s.Return? || s.ReturnValue? }

  predicate EndsInReturn(ss: seq<Stmt>) { ss != [] && IsReturn(ss[|ss| - 1]) }

  // What AddFunc keeps as the body: void functions get a final return, others must have one.
  function AddFunc(isVoid: bool, ss: seq<Stmt>): Result<seq<Stmt>> {
    if EndsInReturn(ss) then Ok(ss)
    else if isVoid then Ok(ss + [Return])
    else Error("Function must return a value.")
  }

  lemma AddFuncEndsInReturn(isVoid: bool, ss: seq<Stmt>)
    ensures AddFunc(isVoid, ss).Ok? ==>
              EndsInReturn(AddFunc(isVoid, ss).value) && ss <= AddFunc(isVoid, ss).value
    ensures AddFunc(isVoid, ss).Error? <==> !isVoid && !EndsInReturn(ss)
  {
  }

  //// Return ends every body ////

  lemma {:induction false} CodeOfTwo(a: seq<Stmt>, b: seq<Stmt>, base: nat)
    ensures StmtsCode(a + b, base) == StmtsCode(a, base) + StmtsCode(b, base + |StmtsCode(a, base)|)
  {
    if a == [] {
      assert a + b == b;
    } else {
      assert (a + b)[1..] == a[1..] + b;
      CodeOfTwo(a[1..], b, base + |StmtCode(a[0], base)|);
    }
  }

  lemma {:induction false} PerformTwo(a: seq<Stmt>, b: seq<Stmt>, vars: Vars)
    ensures PerformAll(a + b, vars)
         == match PerformAll(a, vars) case Normal(v) => PerformAll(b, v) case r => r
  {
    if a == [] {
      assert a + b == b;
    } else {
      assert (a + b)[1..] == a[1..] + b;
      if Perform(a[0], vars).Normal? {
        PerformTwo(a[1..], b, Perform(a[0], vars).vars);
      }
    }
  }

  lemma ReturnEndsBody(ss: seq<Stmt>, vars: Vars)
    requires EndsInReturn(ss)
    ensures !PerformAll(ss, vars).Normal?
  {
    var init, last := ss[..|ss| - 1], ss[|ss| - 1];
    assert init + [last] == ss;
    PerformTwo(init, [last], vars);
  }

  // A body splits into code whose jumps stay within it or go just past it, and a
  // nonempty final return without jumps.
  lemma BodyLayout(f: Function) returns (front: seq<Instruction>, back: seq<Instruction>)
    requires EndsInReturn(f.body)
    ensures Body(f) == PrologueCode(f.args) + front + back
    ensures JumpsWithin(front, |PrologueCode(f.args)|) && NoJumps(PrologueCode(f.args))
    ensures NoJumps(back) && |back| > 0
  {
    hide StmtCode, JumpsWithin, NoJumps;
    var p := |PrologueCode(f.args)|;
    var init, last := f.body[..|f.body| - 1], f.body[|f.body| - 1];
    assert init + [last] == f.body;
    CodeOfTwo(init, [last], p);
    front := StmtsCode(init, p);
    back := StmtsCode([last], p + |front|);
    assert [last][1..] == [] && StmtsCode([], p + |front| + |StmtCode(last, p + |front|)|) == [];
    assert back == StmtCode(last, p + |front|);
    StmtsJumps(init, p);
    PrologueHasNoJumps(f.args);
    ReturnHasNoJumps(last, p + |front|);
  }

  // Every jump of a function that ends in a return lands on one of its instructions.
  lemma JumpsInRange(f: Function, i: nat)
    requires EndsInReturn(f.body) && i < |FunctionCode(f)|
    ensures IsJump(FunctionCode(f)[i]) ==> i < FunctionCode(f)[i].jumpAfter + 1 < |FunctionCode(f)|
    ensures !IsJump(FunctionCode(f)[i]) ==> FunctionCode(f)[i].jumpAfter == -1
    ensures FunctionCode(f)[i].jumpTo == -1 && FunctionCode(f)[i].target == ""
    ensures FunctionCode(f)[i].labelName == (if i == 0 then f.name else "")
  {
    var front, back := BodyLayout(f);
    hide PrologueCode, StmtsCode;
    var p := |PrologueCode(f.args)|;
    var code := Body(f);
    if i < p {
      assert code[i] == PrologueCode(f.args)[i];
    } else if i < p + |front| {
      assert code[i] == front[i - p];
    } else {
      assert code[i] == back[i - p - |front|];
    }
  }

  lemma ReturnHasNoJumps(s: Stmt, base: nat)
    requires IsReturn(s)
    ensures NoJumps(StmtCode(s, base)) && |StmtCode(s, base)| > 0
  {
    if s.ReturnValue? { ExprHasNoJumps(s.value); }
  }

  lemma {:induction false} PrologueHasNoJumps(args: seq<Parameter>)
    ensures NoJumps(PrologueCode(args))
  {
    if args != [] { PrologueHasNoJumps(args[..|args| - 1]); }
  }

  //// Calling a function's code ////

  // The argument values as the caller pushed them, first to last.
  function ArgCells(args: seq<Parameter>, values: seq<int>): seq<int>
    requires |args| == |values|
  {
    if args == [] then []
    else
      var n := |args| - 1;
      ArgCells(args[..n], values[..n]) + Cells(values[n], Wide(args[n].dataType))
  }

  // They lie in order, each in the cells of its type.
  lemma {:induction false} ArgCellsInOrder(args: seq<Parameter>, values: seq<int>, a: Parameter, v: int)
    requires |args| == |values|
    ensures ArgCells([a] + args, [v] + values) == Cells(v, Wide(a.dataType)) + ArgCells(args, values)
    decreases |args|
  {
    hide Cells;
    var n := |args|;
    if n == 0 {
      assert ([a] + args)[..0] == [] && ([v] + values)[..0] == [];
    } else {
      assert ([a] + args)[..n] == [a] + args[..n - 1] && ([v] + values)[..n] == [v] + values[..n - 1];
      ArgCellsInOrder(args[..n - 1], values[..n - 1], a, v);
      var last := Cells(values[n - 1], Wide(args[n - 1].dataType));
      assert ArgCells([a] + args, [v] + values) == ArgCells([a] + args[..n - 1], [v] + values[..n - 1]) + last;
      assert ArgCells(args, values) == ArgCells(args[..n - 1], values[..n - 1]) + last;
    }
  }

  function BindArgs(args: seq<Parameter>, values: seq<int>, vars: Vars): Vars
    requires |args| == |values|
  {
    if args == [] then vars
    else
      var n := |args| - 1;
      BindArgs(args[..n], values[..n], vars[ArgVar(args[n].position) := values[n]])
  }

  predicate DistinctPositions(args: seq<Parameter>) {
    forall i, j :: 0 <= i < j < |args| ==> args[i].position != args[j].position
  }

  // Each parameter ends up with the value that was passed for it.
  lemma {:induction false} ArgsArrive(args: seq<Parameter>, values: seq<int>, vars: Vars, slot: Slot)
    requires |args| == |values| && DistinctPositions(args)
    ensures forall i :: 0 <= i < |args| && slot == ArgVar(args[i].position) ==>
              Get(BindArgs(args, values, vars), slot) == values[i]
    ensures (forall i :: 0 <= i < |args| ==> slot != ArgVar(args[i].position)) ==>
              Get(BindArgs(args, values, vars), slot) == Get(vars, slot)
  {
    if args != [] {
      var n := |args| - 1;
      ArgsArrive(args[..n], values[..n], vars[ArgVar(args[n].position) := values[n]], slot);
    }
  }

  lemma {:induction false} PrologueCorrect(code: seq<Instruction>, i: nat, args: seq<Parameter>, values: seq<int>,
                    stack: seq<int>, vars: Vars)
    requires |args| == |values| && At(code, i, PrologueCode(args))
    ensures Exec(code, State(i, stack + ArgCells(args, values), vars))
         == Exec(code, State(i + |PrologueCode(args)|, stack, BindArgs(args, values, vars)))
    decreases |args|
  {
    hide Exec, Cells;
    if args == [] {
      assert stack + [] == stack;
    } else {
      var n := |args| - 1;
      var a := args[n];
      var wide := Wide(a.dataType);
      var rest := stack + ArgCells(args[..n], values[..n]);
      AtSplits(code, i, [Plain(ST(ArgVar(a.position), wide))], PrologueCode(args[..n]));
      assert code[i] == Plain(ST(ArgVar(a.position), wide));
      assert stack + ArgCells(args, values) == rest + Cells(values[n], wide);
      hide At;
      OneStoreRuns(code, i, ArgVar(a.position), wide, values[n], rest, vars);
      PrologueCorrect(code, i + 1, args[..n], values[..n], stack, vars[ArgVar(a.position) := values[n]]);
    }
  }

  lemma {:induction false} SameOps(code: seq<Instruction>, code': seq<Instruction>, s: State)
    requires |code| == |code'|
    requires forall i :: 0 <= i < |code| ==> code[i].op == code'[i].op && JumpTarget(code[i]) == JumpTarget(code'[i])
    ensures Exec(code, s) == Exec(code', s)
    decreases |code| - s.pc
  {
    if s.pc < |code| {
      assert Step(code, s) == Step(code', s);
      match Step(code, s)
      case Running(s') => if s'.pc > s.pc { SameOps(code, code', s'); }
      case _ =>
    }
  }

  // Run from its first instruction with its arguments on the stack, the code of a
  // function consumes them, performs the body and returns what the body returns.
  // It stops within as many steps as it has instructions.
  lemma FunctionCorrect(f: Function, values: seq<int>, stack: seq<int>, vars: Vars)
    requires |values| == |f.args| && EndsInReturn(f.body) && ConsistentAll(f.body)
    ensures Steps(FunctionCode(f), State(0, stack + ArgCells(f.args, values), vars), |FunctionCode(f)|)
         == match PerformAll(f.body, BindArgs(f.args, values, vars))
            case Left(cells, vars') => Returned(stack + cells, vars')
            case _ => Trapped
  {
    hide Exec, Steps, FunctionCode, PerformAll, ConsistentAll, EndsInReturn, ArgCells, BindArgs, ForwardOnly;
    var code := FunctionCode(f);
    var s := State(0, stack + ArgCells(f.args, values), vars);
    BodyRuns(f, values, stack, vars);
    NamingChangesNothing(f, s);
    assert ForwardOnly(code) by { FunctionIsForward(f); }
    ForwardHalts(code, s, |code|);
  }

  // The same before the first instruction is named.
  lemma BodyRuns(f: Function, values: seq<int>, stack: seq<int>, vars: Vars)
    requires |values| == |f.args| && EndsInReturn(f.body) && ConsistentAll(f.body)
    ensures Exec(Body(f), State(0, stack + ArgCells(f.args, values), vars))
         == match PerformAll(f.body, BindArgs(f.args, values, vars))
            case Left(cells, vars') => Returned(stack + cells, vars')
            case _ => Trapped
  {
    hide Exec, StmtsCode, PrologueCode, PerformAll, ConsistentAll, EndsInReturn, ArgCells, BindArgs;
    var p := |PrologueCode(f.args)|;
    var body, vars' := Body(f), BindArgs(f.args, values, vars);
    assert body[0..|body|] == body;
    AtSplits(body, 0, PrologueCode(f.args), StmtsCode(f.body, p));
    PrologueCorrect(body, 0, f.args, values, stack, vars);
    StmtsCorrect(body, p, f.body, stack, vars');
    ReturnEndsBody(f.body, vars');
  }

  lemma NamingChangesNothing(f: Function, s: State)
    ensures Exec(FunctionCode(f), s) == Exec(Body(f), s)
  {
    hide Exec, Body;
    SameOps(Body(f), FunctionCode(f), s);
  }

  lemma FunctionIsForward(f: Function)
    requires EndsInReturn(f.body)
    ensures ForwardOnly(FunctionCode(f))
  {
    hide FunctionCode, EndsInReturn;
    forall i | 0 <= i < |FunctionCode(f)| && (FunctionCode(f)[i].op == BRZ || FunctionCode(f)[i].op == JMP)
      ensures JumpTarget(FunctionCode(f)[i]) > i
    {
      JumpsInRange(f, i);
    }
  }
}
