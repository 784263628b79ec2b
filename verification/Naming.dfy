// What a source function means, with nested name environments and no slots, and
// that its compiled form means the same.

module Naming {
  import opened Options
  import opened Words
  import opened Types
  import opened Machine
  import opened Code
  import opened Functions
  import opened Scopes

  //// Source semantics ////

  datatype NVar = NVar(dataType: DataType, value: int)

  type Names = seq<map<string, NVar>>

  function Find(env: Names, name: string): Option<NVar> {
    if env == [] then None
    else
      var n := |env| - 1;
      if name in env[n] then Some(env[n][name]) else Find(env[..n], name)
  }

  // The type that type checking writes on an expression's node.
  function NodeType(e: SExpr, env: Names): DataType {
    match e
    case SId(name) => (match Find(env, name) case Some(v) => v.dataType case None => INT)
    case SInt(_) => INT
    case SLong(_) => LONG
    case SBinary(_, l, r) => if NodeType(l, env) == LONG || NodeType(r, env) == LONG then LONG else INT
    case SNeg(x) => NodeType(x, env)
    case SNot(x) => NodeType(x, env)
    case SCast(t, _) => t
  }

  // The type of its value. A comparison yields an int even where its node says long, and
  // stays one under a cast to long, which generates nothing for a node of that type.
  function TypeOf(e: SExpr, env: Names): DataType {
    match e
    case SId(name) => (match Find(env, name) case Some(v) => v.dataType case None => INT)
    case SInt(_) => INT
    case SLong(_) => LONG
    case SBinary(op, l, r) =>
      if IsArithmetic(op) && (TypeOf(l, env) == LONG || TypeOf(r, env) == LONG) then LONG else INT
    case SNeg(x) => TypeOf(x, env)
    case SNot(_) => INT
    case SCast(t, x) => if NodeType(x, env) == t then TypeOf(x, env) else t
  }

  // Ints are sign-extended where they meet longs. Nothing when a division traps.
  function ValueOf(e: SExpr, env: Names): Option<int> {
    match e
    case SId(name) => (match Find(env, name) case Some(v) => Some(v.value) case None => None)
    case SInt(v) => Some(Wrap32(v))
    case SLong(v) => Some(Wrap64(v))
    case SBinary(op, l, r) =>
      (match (ValueOf(l, env), ValueOf(r, env))
       case (Some(a), Some(b)) => Apply(op, TypeOf(l, env) == LONG || TypeOf(r, env) == LONG, a, b)
       case _ => None)
    case SNeg(x) =>
      (match ValueOf(x, env) case Some(a) => Some(Wrap(Wide(TypeOf(x, env)), -a)) case None => None)
    case SNot(x) =>
      (match ValueOf(x, env) case Some(a) => Some(Truth(a == 0)) case None => None)
    case SCast(t, x) =>
      (match ValueOf(x, env)
       case Some(a) => Some(if t == INT && TypeOf(x, env) == LONG then Wrap32(a) else a)
       case None => None)
  }

  // A function is left with nothing, or with a value of a type.
  datatype NEffect = NNormal(env: Names) | NLeft(result: Option<(DataType, int)>) | NTrap

  function Bind(env: Names, name: string, v: NVar): Names
    requires env != []
  {
    env[|env| - 1 := env[|env| - 1][name := v]]
  }

  // Assigns to the innermost binding.
  function Update(env: Names, name: string, value: int): Names {
    if env == [] then env
    else
      var n := |env| - 1;
      if name in env[n] then Bind(env, name, env[n][name].(value := value))
      else Update(env[..n], name, value) + [env[n]]
  }

  // A branch that is not taken still declares the variables it declares directly.
  function Skip(s: SStmt, env: Names): (r: Names)
    requires env != []
    ensures |r| == |env|
  {
    match s
    case SDecl(t, name) => Bind(env, name, NVar(t, 0))
    case SInit(t, name, _) => Bind(env, name, NVar(t, 0))
    case SIf(_, thn) => Skip(thn, env)
    case SIfElse(_, thn, els) => Skip(els, Skip(thn, env))
    case _ => env
  }

  function Do(s: SStmt, env: Names): (r: NEffect)
    requires env != []
    ensures r.NNormal? ==> |r.env| == |env|
    decreases s, 1
  {
    match s
    case SDecl(t, name) => NNormal(Bind(env, name, NVar(t, 0)))
    case SInit(t, name, e) =>
      (match ValueOf(e, env) case None => NTrap case Some(v) => NNormal(Bind(env, name, NVar(t, v))))
    case SAssign(name, e) =>
      (match ValueOf(e, env)
       case None => NTrap
       case Some(v) => UpdateKeepsSize(env, name, v); NNormal(Update(env, name, v)))
    case SBlock(ss) =>
      (match DoAll(ss, env + [map[]])
       case NNormal(env') => NNormal(env'[..|env|])
       case r => r)
    case SIf(c, thn) =>
      (match ValueOf(c, env)
       case None => NTrap
       case Some(v) => if v != 0 then Do(thn, env) else NNormal(Skip(thn, env)))
    case SIfElse(c, thn, els) =>
      (match ValueOf(c, env)
       case None => NTrap
       case Some(v) =>
         if v != 0 then
           match Do(thn, env)
           case NNormal(env1) => NNormal(Skip(els, env1))
           case r => r
         else Do(els, Skip(thn, env)))
    case SReturn => NLeft(None)
    case SReturnValue(e) =>
      (match ValueOf(e, env) case None => NTrap case Some(v) => NLeft(Some((TypeOf(e, env), v))))
  }

  function DoAll(ss: seq<SStmt>, env: Names): (r: NEffect)
    requires env != []
    ensures r.NNormal? ==> |r.env| == |env|
    decreases ss, 0
  {
    if ss == [] then NNormal(env)
    else
      match Do(ss[0], env)
      case NNormal(env') => DoAll(ss[1..], env')
      case r => r
  }

  lemma {:induction false} UpdateKeepsSize(env: Names, name: string, value: int)
    ensures |Update(env, name, value)| == |env|
  {
    if env != [] { UpdateKeepsSize(env[..|env| - 1], name, value); }
  }

  //// Names and slots ////

  // Scope by scope the same names, each with the type and value of its slot.
  ghost predicate Agree(scopes: seq<Scope>, env: Names, vars: Vars) {
    && |scopes| == |env|
    && (forall i :: 0 <= i < |env| ==> scopes[i].Keys == env[i].Keys)
    && (forall i, x :: 0 <= i < |env| && x in env[i] ==>
          scopes[i][x].dataType == env[i][x].dataType && Get(vars, scopes[i][x].slot) == env[i][x].value
          && Wrap(Wide(env[i][x].dataType), env[i][x].value) == env[i][x].value)
  }

  // No two variables in scope share a slot, and slots not handed out are unwritten.
  ghost predicate Apart(f: Front, vars: Vars) {
    && (forall i, x, j, y ::
          0 <= i < |f.scopes| && x in f.scopes[i] && 0 <= j < |f.scopes| && y in f.scopes[j] && (i != j || x != y) ==>
            f.scopes[i][x].slot != f.scopes[j][y].slot)
    && (forall i, x :: 0 <= i < |f.scopes| && x in f.scopes[i] && f.scopes[i][x].slot.LocalVar? ==>
          f.scopes[i][x].slot.position < f.localVarCnt)
    && (forall k: nat :: k >= f.localVarCnt ==> Get(vars, LocalVar(k)) == 0)
  }

  ghost predicate Match(f: Front, env: Names, vars: Vars) {
    f.scopes != [] && Agree(f.scopes, env, vars) && Apart(f, vars)
  }

  lemma {:induction false} LookupAgrees(scopes: seq<Scope>, env: Names, vars: Vars, name: string)
    requires Agree(scopes, env, vars)
    ensures Lookup(scopes, name).Some? <==> Find(env, name).Some?
    ensures Lookup(scopes, name).Some? ==>
              var id, v := Lookup(scopes, name).value, Find(env, name).value;
              id.dataType == v.dataType && Get(vars, id.slot) == v.value && Wrap(Wide(v.dataType), v.value) == v.value
  {
    if env != [] {
      var n := |env| - 1;
      assert name in scopes[n] <==> name in env[n];
      if name !in env[n] { LookupAgrees(scopes[..n], env[..n], vars, name); }
    }
  }

  // The node has the type that type checking gives it, and its code leaves as many cells as
  // the value's type has.
  predicate TypesAgree(x: Expr, node: DataType, t: DataType) {
    x.dataType == node && PushesWide(x) == Wide(t) && (Wide(t) ==> Wide(node))
  }

  ghost predicate SameMeaning(x: Expr, e: SExpr, env: Names, vars: Vars) {
    Eval(x, vars) == ValueOf(e, env) && TypesAgree(x, NodeType(e, env), TypeOf(e, env))
  }

  lemma {:induction false} WidenedSame(x: Expr, vars: Vars)
    requires x.dataType == INT && TryTypeCast(x, LONG).Some?
    requires Consistent(TryTypeCast(x, LONG).value) && (x.Number? ==> Is32(x.value))
    ensures Consistent(x) && !PushesWide(x) && PushesWide(TryTypeCast(x, LONG).value)
    ensures Eval(TryTypeCast(x, LONG).value, vars) == Eval(x, vars)
  {
  }

  // Literals are in range of their type.
  predicate Literals(e: SExpr) {
    match e
    case SId(_) => true
    case SInt(v) => Is32(v)
    case SLong(v) => Is64(v)
    case SBinary(_, l, r) => Literals(l) && Literals(r)
    case SNeg(x) => Literals(x)
    case SNot(x) => Literals(x)
    case SCast(_, x) => Literals(x)
  }

  // A checked operand, as it went into its operator's node.
  ghost predicate OperandOf(x: Expr, t: DataType, y: Expr) {
    (y == x && x.dataType == t) || (x.dataType == INT && t == LONG && TryTypeCast(x, LONG) == Some(y))
  }

  lemma CheckedOperands(op: BinaryOp, l: Expr, r: Expr, x: Expr)
    requires CheckBinary(op, l, r) == Ok(x)
    ensures x.Binary? && x.op == op
    ensures OperandOf(l, x.dataType, x.lhs) && OperandOf(r, x.dataType, x.rhs)
    ensures x.dataType == l.dataType || x.dataType == r.dataType
  {
    CastIsLong(l);
    CastIsLong(r);
    hide TryTypeCast;
  }

  lemma CastIsLong(e: Expr)
    ensures TryTypeCast(e, LONG).Some? <==> e.dataType == INT
    ensures TryTypeCast(e, LONG).Some? ==> TryTypeCast(e, LONG).value.dataType == LONG
  {
  }

  lemma OperandSame(x: Expr, t: DataType, y: Expr, vars: Vars)
    requires OperandOf(x, t, y) && Consistent(y) && (x.Number? && x.dataType == INT ==> Is32(x.value))
    ensures Consistent(x) && Eval(y, vars) == Eval(x, vars)
    ensures y == x || (PushesWide(y) && x.dataType == INT)
  {
    if y != x { WidenedSame(x, vars); }
  }

  lemma WidthMatters(op: BinaryOp, a: int, b: int)
    ensures !IsArithmetic(op) ==> Apply(op, true, a, b) == Apply(op, false, a, b)
  {
  }

  lemma BinaryMeans(op: BinaryOp, l: Expr, r: Expr, x: Expr, e: SExpr, env: Names, vars: Vars)
    requires CheckBinary(op, l, r) == Ok(x) && Consistent(x) && e.SBinary? && e.op == op
    requires l.Number? && l.dataType == INT ==> Is32(l.value)
    requires r.Number? && r.dataType == INT ==> Is32(r.value)
    requires Consistent(l) ==> SameMeaning(l, e.lhs, env, vars)
    requires Consistent(r) ==> SameMeaning(r, e.rhs, env, vars)
    ensures SameMeaning(x, e, env, vars)
  {
    hide Apply, Wrap32, Wrap64, CheckBinary, OperandOf;
    CheckedOperands(op, l, r, x);
    OperandSame(l, x.dataType, x.lhs, vars);
    OperandSame(r, x.dataType, x.rhs, vars);
    OperandsDecide(op, l, r, x, e, env, vars);
  }

  // What is left of it once the operands are known to mean the same.
  lemma OperandsDecide(op: BinaryOp, l: Expr, r: Expr, x: Expr, e: SExpr, env: Names, vars: Vars)
    requires x.Binary? && x.op == op && Consistent(x) && e.SBinary? && e.op == op
    requires Eval(x.lhs, vars) == Eval(l, vars) && (x.lhs == l || (PushesWide(x.lhs) && l.dataType == INT))
    requires Eval(x.rhs, vars) == Eval(r, vars) && (x.rhs == r || (PushesWide(x.rhs) && r.dataType == INT))
    requires OperandOf(l, x.dataType, x.lhs) && OperandOf(r, x.dataType, x.rhs)
    requires x.dataType == l.dataType || x.dataType == r.dataType
    requires SameMeaning(l, e.lhs, env, vars) && SameMeaning(r, e.rhs, env, vars)
    ensures SameMeaning(x, e, env, vars)
  {
    hide Apply;
    var wide := TypeOf(e.lhs, env) == LONG || TypeOf(e.rhs, env) == LONG;
    WidthsDecide(op, l, r, x, NodeType(e.lhs, env), NodeType(e.rhs, env), TypeOf(e.lhs, env), TypeOf(e.rhs, env));
    hide TypesAgree, PushesWide, Consistent, OperandOf;
    if Eval(l, vars).Some? && Eval(r, vars).Some? {
      WidthMatters(op, Eval(l, vars).value, Eval(r, vars).value);
    }
  }

  lemma WidthsDecide(op: BinaryOp, l: Expr, r: Expr, x: Expr, m: DataType, n: DataType, t: DataType, u: DataType)
    requires x.Binary? && x.op == op && Consistent(x)
    requires x.lhs == l || (PushesWide(x.lhs) && l.dataType == INT)
    requires x.rhs == r || (PushesWide(x.rhs) && r.dataType == INT)
    requires OperandOf(l, x.dataType, x.lhs) && OperandOf(r, x.dataType, x.rhs)
    requires x.dataType == l.dataType || x.dataType == r.dataType
    requires TypesAgree(l, m, t) && TypesAgree(r, n, u)
    ensures IsArithmetic(op) ==> Wide(x.dataType) == (t == LONG || u == LONG)
    ensures TypesAgree(x, if m == LONG || n == LONG then LONG else INT,
                       if IsArithmetic(op) && (t == LONG || u == LONG) then LONG else INT)
  {
  }

  // A consistent expression means what its source means, with ints sign-extended.
  lemma {:induction false} ExprMeans(e: SExpr, scopes: seq<Scope>, env: Names, vars: Vars)
    requires Agree(scopes, env, vars) && Literals(e)
    requires ElabExpr(e, scopes).Ok?
    ensures ElabExpr(e, scopes).value.Number? && ElabExpr(e, scopes).value.dataType == INT ==>
              Is32(ElabExpr(e, scopes).value.value)
    ensures Consistent(ElabExpr(e, scopes).value) ==> SameMeaning(ElabExpr(e, scopes).value, e, env, vars)
    decreases e
  {
    hide Agree, Wrap32, Wrap64, Apply, CheckBinary;
    var x := ElabExpr(e, scopes).value;
    match e
    case SId(name) => LookupAgrees(scopes, env, vars, name);
    case SInt(v) =>
    case SLong(v) =>
    case SBinary(op, l, r) =>
      ExprMeans(l, scopes, env, vars);
      ExprMeans(r, scopes, env, vars);
      var l', r' := ElabExpr(l, scopes).value, ElabExpr(r, scopes).value;
      CheckedOperands(op, l', r', x);
      if Consistent(x) { BinaryMeans(op, l', r', x, e, env, vars); }
    case SNeg(y) => ExprMeans(y, scopes, env, vars);
    case SNot(y) =>
      ExprMeans(y, scopes, env, vars);
      var y' := ElabExpr(y, scopes).value;
      CheckedOperands(EQ, y', Number(0, INT), x);
      if Consistent(x) { NotMeans(y', x, y, env, vars); }
    case SCast(t, y) => ExprMeans(y, scopes, env, vars);
  }

  lemma NotMeans(y': Expr, x: Expr, y: SExpr, env: Names, vars: Vars)
    requires CheckBinary(EQ, y', Number(0, INT)) == Ok(x) && Consistent(x)
    requires y'.Number? && y'.dataType == INT ==> Is32(y'.value)
    requires Consistent(y') ==> SameMeaning(y', y, env, vars)
    ensures SameMeaning(x, SNot(y), env, vars)
  {
    CheckedOperands(EQ, y', Number(0, INT), x);
    OperandSame(y', x.dataType, x.lhs, vars);
    OperandSame(Number(0, INT), x.dataType, x.rhs, vars);
  }

  lemma {:induction false} ElabWellTyped(e: SExpr, scopes: seq<Scope>)
    requires ElabExpr(e, scopes).Ok?
    ensures WellTyped(ElabExpr(e, scopes).value)
  {
    hide CheckBinary;
    match e
    case SId(_) =>
    case SInt(_) =>
    case SLong(_) =>
    case SBinary(op, l, r) =>
      ElabWellTyped(l, scopes);
      ElabWellTyped(r, scopes);
      PromotionIsTotal(op, ElabExpr(l, scopes).value, ElabExpr(r, scopes).value);
    case SNeg(x) => ElabWellTyped(x, scopes);
    case SNot(x) =>
      ElabWellTyped(x, scopes);
      PromotionIsTotal(EQ, ElabExpr(x, scopes).value, Number(0, INT));
    case SCast(_, x) => ElabWellTyped(x, scopes);
  }

  // Only comparisons of types that cannot be promoted would be rejected, and there are none.
  lemma AssignedOperand(t: DataType, x: Expr, y: Expr)
    requires WellTyped(x) && CheckAssignmentType(t, x) == Ok(y)
    ensures OperandOf(x, t, y)
  {
  }

  // The value an assignment stores is the source's value, and fits its variable.
  lemma StoredMeans(e: SExpr, t: DataType, scopes: seq<Scope>, env: Names, vars: Vars, y: Expr)
    requires Agree(scopes, env, vars) && Literals(e) && ElabExpr(e, scopes).Ok?
    requires CheckAssignmentType(t, ElabExpr(e, scopes).value) == Ok(y)
    requires Consistent(y) && PushesWide(y) == Wide(t)
    ensures Eval(y, vars) == ValueOf(e, env)
    ensures ValueOf(e, env).Some? ==> Wrap(Wide(t), ValueOf(e, env).value) == ValueOf(e, env).value
  {
    hide Agree, Wrap32, Wrap64, CheckAssignmentType, Eval, ValueOf, ElabExpr;
    var x := ElabExpr(e, scopes).value;
    ElabWellTyped(e, scopes);
    AssignedOperand(t, x, y);
    ExprMeans(e, scopes, env, vars);
    OperandSame(x, t, y, vars);
    if Eval(y, vars).Some? {
      EvalFits(y, vars);
      WrapFits(Wide(t), Eval(y, vars).value);
    }
  }

  lemma WrapFits(wide: bool, v: int)
    requires Is64(v) && (!wide ==> Is32(v))
    ensures Wrap(wide, v) == v
  {
  }

  //// Variables ////

  // Nothing in scope has the slot that is handed out next.
  lemma FreshSlot(f: Front, vars: Vars, i: nat, x: string)
    requires Apart(f, vars) && i < |f.scopes| && x in f.scopes[i]
    ensures f.scopes[i][x].slot != LocalVar(f.localVarCnt)
  {
  }

  lemma DeclareAgrees(f: Front, env: Names, vars: Vars, name: string, t: DataType, v: int)
    requires Match(f, env, vars) && Declare(f, name, t, false).Ok? && Wrap(Wide(t), v) == v
    ensures var (f', id) := Declare(f, name, t, false).value;
            Agree(f'.scopes, Bind(env, name, NVar(t, v)), vars[id.slot := v])
  {
    hide Wrap32, Wrap64, Apart;
    var (f', id) := Declare(f, name, t, false).value;
    var env': Names := Bind(env, name, NVar(t, v));
    var vars' := vars[id.slot := v];
    forall i, x | 0 <= i < |env'| && x in env'[i]
      ensures f'.scopes[i][x].dataType == env'[i][x].dataType && Get(vars', f'.scopes[i][x].slot) == env'[i][x].value
      ensures Wrap(Wide(env'[i][x].dataType), env'[i][x].value) == env'[i][x].value
    {
      if i != |env| - 1 || x != name {
        assert x in env[i];
        FreshSlot(f, vars, i, x);
      }
    }
  }

  lemma DeclareApart(f: Front, vars: Vars, name: string, t: DataType, v: int)
    requires Apart(f, vars) && Declare(f, name, t, false).Ok?
    ensures var (f', id) := Declare(f, name, t, false).value; Apart(f', vars[id.slot := v])
  {
    var (f', id) := Declare(f, name, t, false).value;
    var n := |f.scopes| - 1;
    forall i, x, j, y |
      0 <= i < |f'.scopes| && x in f'.scopes[i] && 0 <= j < |f'.scopes| && y in f'.scopes[j] && (i != j || x != y)
      ensures f'.scopes[i][x].slot != f'.scopes[j][y].slot
    {
      if i == n && x == name {
        FreshSlot(f, vars, j, y);
      } else if j == n && y == name {
        FreshSlot(f, vars, i, x);
      }
    }
  }

  lemma DeclareMatches(f: Front, env: Names, vars: Vars, name: string, t: DataType, v: int)
    requires Match(f, env, vars) && Declare(f, name, t, false).Ok? && Wrap(Wide(t), v) == v
    ensures var (f', id) := Declare(f, name, t, false).value;
            Match(f', Bind(env, name, NVar(t, v)), vars[id.slot := v])
  {
    hide Agree, Apart, Wrap;
    DeclareAgrees(f, env, vars, name, t, v);
    DeclareApart(f, vars, name, t, v);
  }

  // A declaration without a value: the slot was never written.
  lemma DeclareUnset(f: Front, env: Names, vars: Vars, name: string, t: DataType)
    requires Match(f, env, vars) && Declare(f, name, t, false).Ok?
    ensures Match(Declare(f, name, t, false).value.0, Bind(env, name, NVar(t, 0)), vars)
  {
    var (f', id) := Declare(f, name, t, false).value;
    assert Get(vars, id.slot) == 0;
    hide Match;
    DeclareMatches(f, env, vars, name, t, 0);
    ZeroChangesNothing(f', Bind(env, name, NVar(t, 0)), vars, id.slot);
  }

  lemma ZeroChangesNothing(f: Front, env: Names, vars: Vars, slot: Slot)
    requires Match(f, env, vars[slot := 0]) && Get(vars, slot) == 0
    ensures Match(f, env, vars)
  {
    assert forall s :: Get(vars[slot := 0], s) == Get(vars, s);
  }

  lemma {:induction false} BindingPlace(scopes: seq<Scope>, env: Names, name: string, v: int) returns (k: nat)
    requires |scopes| == |env| && Lookup(scopes, name).Some?
    requires forall i :: 0 <= i < |env| ==> scopes[i].Keys == env[i].Keys
    ensures k < |env| && name in env[k] && name in scopes[k]
    ensures Lookup(scopes, name).value == scopes[k][name]
    ensures Update(env, name, v) == env[k := env[k][name := env[k][name].(value := v)]]
  {
    var n := |env| - 1;
    assert name in scopes[n] <==> name in env[n];
    if name in env[n] {
      k := n;
    } else {
      k := BindingPlace(scopes[..n], env[..n], name, v);
      assert env[..n] + [env[n]] == env;
    }
  }

  lemma AssignMatches(f: Front, env: Names, vars: Vars, name: string, v: int)
    requires Match(f, env, vars) && Lookup(f.scopes, name).Some?
    requires Wrap(Wide(Lookup(f.scopes, name).value.dataType), v) == v
    ensures Match(f, Update(env, name, v), vars[Lookup(f.scopes, name).value.slot := v])
  {
    hide Wrap32, Wrap64, Lookup, Update;
    var k := BindingPlace(f.scopes, env, name, v);
    var slot := f.scopes[k][name].slot;
    var env': Names := env[k := env[k][name := env[k][name].(value := v)]];
    var vars' := vars[slot := v];
    forall i, x | 0 <= i < |env'| && x in env'[i]
      ensures f.scopes[i][x].dataType == env'[i][x].dataType && Get(vars', f.scopes[i][x].slot) == env'[i][x].value
      ensures Wrap(Wide(env'[i][x].dataType), env'[i][x].value) == env'[i][x].value
    {
      assert x in env[i];
      if i != k || x != name { assert f.scopes[i][x].slot != slot; }
    }
    assert Agree(f.scopes, env', vars');
    assert Apart(f, vars');
  }

  lemma EnterMatches(f: Front, env: Names, vars: Vars)
    requires Match(f, env, vars)
    ensures Match(EnterScope(f), env + [map[]], vars)
  {
    EnterAgrees(f.scopes, env, vars);
    EnterApart(f, vars);
    hide Agree, Apart;
  }

  lemma EnterAgrees(scopes: seq<Scope>, env: Names, vars: Vars)
    requires Agree(scopes, env, vars)
    ensures Agree(scopes + [map[]], env + [map[]], vars)
  {
    hide Wrap;
  }

  lemma EnterApart(f: Front, vars: Vars)
    requires Apart(f, vars)
    ensures Apart(EnterScope(f), vars)
  {
  }

  lemma ExitMatches(f: Front, env: Names, vars: Vars)
    requires Match(f, env, vars) && |f.scopes| > 1
    ensures Match(ExitScope(f), env[..|env| - 1], vars)
  {
    hide Wrap;
  }

  //// Statements ////

  predicate LiteralsIn(s: SStmt)
    decreases s, 1
  {
    match s
    case SDecl(_, _) => true
    case SInit(_, _, e) => Literals(e)
    case SAssign(_, e) => Literals(e)
    case SBlock(ss) => LiteralsInAll(ss)
    case SIf(c, thn) => Literals(c) && LiteralsIn(thn)
    case SIfElse(c, thn, els) => Literals(c) && LiteralsIn(thn) && LiteralsIn(els)
    case SReturn => true
    case SReturnValue(e) => Literals(e)
  }

  predicate LiteralsInAll(ss: seq<SStmt>)
    decreases ss, 0
  {
    ss == [] || (LiteralsIn(ss[0]) && LiteralsInAll(ss[1..]))
  }

  // The same thing happens, and names and slots still agree if it goes on.
  ghost predicate SameEffect(r: Effect, n: NEffect, f: Front) {
    match (r, n)
    case (Normal(vars), NNormal(env)) => Match(f, env, vars)
    case (Left(cells, _), NLeft(None)) => cells == []
    case (Left(cells, _), NLeft(Some((t, v)))) => cells == Cells(v, Wide(t))
    case (Trap, NTrap) => true
    case _ => false
  }

  lemma {:induction false} SkipMatches(s: SStmt, f: Front, ret: Option<DataType>, env: Names, vars: Vars)
    requires Match(f, env, vars) && env != [] && ElabStmt(s, f, ret).Ok?
    ensures Match(ElabStmt(s, f, ret).value.1, Skip(s, env), vars)
    decreases s
  {
    hide Match, ElabExpr, CheckAssignmentType, Declare, Lookup;
    match s
    case SDecl(t, name) => DeclareUnset(f, env, vars, name, t);
    case SInit(t, name, _) => DeclareUnset(f, env, vars, name, t);
    case SAssign(_, _) =>
    case SBlock(ss) => BlockKeepsFront(ss, f, ret, env, vars);
    case SIf(_, thn) => SkipMatches(thn, f, ret, env, vars);
    case SIfElse(_, thn, els) =>
      SkipMatches(thn, f, ret, env, vars);
      SkipMatches(els, ElabStmt(thn, f, ret).value.1, ret, Skip(thn, env), vars);
    case SReturn =>
    case SReturnValue(_) =>
  }

  // A statement declares in the innermost scope only.
  lemma {:induction false} OuterKept(s: SStmt, f: Front, ret: Option<DataType>)
    requires f.scopes != [] && ElabStmt(s, f, ret).Ok?
    ensures var f' := ElabStmt(s, f, ret).value.1;
            f'.scopes[..|f.scopes| - 1] == f.scopes[..|f.scopes| - 1] && f'.localVarCnt >= f.localVarCnt
    decreases s, 1
  {
    hide ElabExpr, CheckAssignmentType, Lookup;
    match s
    case SBlock(ss) =>
      OuterKeptAll(ss, EnterScope(f), ret);
      assert EnterScope(f).scopes[..|f.scopes|] == f.scopes;
    case SIf(_, thn) => OuterKept(thn, f, ret);
    case SIfElse(_, thn, els) =>
      OuterKept(thn, f, ret);
      OuterKept(els, ElabStmt(thn, f, ret).value.1, ret);
    case _ =>
  }

  lemma {:induction false} OuterKeptAll(ss: seq<SStmt>, f: Front, ret: Option<DataType>)
    requires f.scopes != [] && ElabAll(ss, f, ret).Ok?
    ensures var f' := ElabAll(ss, f, ret).value.1;
            f'.scopes[..|f.scopes| - 1] == f.scopes[..|f.scopes| - 1] && f'.localVarCnt >= f.localVarCnt
    decreases ss, 0
  {
    hide ElabStmt;
    if ss != [] {
      OuterKept(ss[0], f, ret);
      OuterKeptAll(ss[1..], ElabStmt(ss[0], f, ret).value.1, ret);
    }
  }

  lemma BlockKeepsFront(ss: seq<SStmt>, f: Front, ret: Option<DataType>, env: Names, vars: Vars)
    requires Match(f, env, vars) && ElabStmt(SBlock(ss), f, ret).Ok?
    ensures Match(ElabStmt(SBlock(ss), f, ret).value.1, env, vars)
  {
    OuterKeptAll(ss, EnterScope(f), ret);
    var f' := ElabStmt(SBlock(ss), f, ret).value.1;
    assert EnterScope(f).scopes[..|f.scopes|] == f.scopes;
    assert f'.scopes == f.scopes && f'.localVarCnt >= f.localVarCnt;
    hide ElabStmt;
  }

  // For every nesting of declarations, assignments, blocks and branches: running
  // the source on its names and the typed tree on its slots comes to the same.
  lemma {:induction false} StmtMeans(s: SStmt, f: Front, ret: Option<DataType>, env: Names, vars: Vars)
    requires Match(f, env, vars) && env != [] && LiteralsIn(s)
    requires ElabStmt(s, f, ret).Ok? && ConsistentStmt(ElabStmt(s, f, ret).value.0)
    ensures SameEffect(Perform(ElabStmt(s, f, ret).value.0, vars), Do(s, env), ElabStmt(s, f, ret).value.1)
    decreases s, 1
  {
    hide Match, ElabExpr, CheckAssignmentType, Declare, Lookup, Consistent, PushesWide, Eval, ValueOf, Literals, Update;
    match s
    case SDecl(t, name) => DeclareUnset(f, env, vars, name, t);
    case SInit(t, name, e) => InitMeans(s, f, ret, env, vars);
    case SAssign(name, e) => AssignMeans(s, f, ret, env, vars);
    case SBlock(ss) =>
      MatchSizes(f, env, vars);
      EnterMatches(f, env, vars);
      StmtsMean(ss, EnterScope(f), ret, env + [map[]], vars);
      BlockExit(ss, f, ret, env, vars);
    case SIf(_, _) => IfMeans(s, f, ret, env, vars);
    case SIfElse(_, _, _) => IfElseMeans(s, f, ret, env, vars);
    case SReturn =>
    case SReturnValue(e) => ReturnMeans(e, f, ret, env, vars);
  }

  lemma InitMeans(s: SStmt, f: Front, ret: Option<DataType>, env: Names, vars: Vars)
    requires s.SInit? && Match(f, env, vars) && env != [] && LiteralsIn(s)
    requires ElabStmt(s, f, ret).Ok? && ConsistentStmt(ElabStmt(s, f, ret).value.0)
    ensures SameEffect(Perform(ElabStmt(s, f, ret).value.0, vars), Do(s, env), ElabStmt(s, f, ret).value.1)
  {
    assert Agree(f.scopes, env, vars);
    hide Match, Agree, CheckAssignmentType, Declare, Consistent, PushesWide, Eval, ValueOf, Wrap;
    var y := ElabStmt(s, f, ret).value.0.value;
    StoredMeans(s.value, s.dataType, f.scopes, env, vars, y);
    if ValueOf(s.value, env).Some? {
      DeclareMatches(f, env, vars, s.name, s.dataType, ValueOf(s.value, env).value);
    }
  }

  lemma AssignMeans(s: SStmt, f: Front, ret: Option<DataType>, env: Names, vars: Vars)
    requires s.SAssign? && Match(f, env, vars) && env != [] && LiteralsIn(s)
    requires ElabStmt(s, f, ret).Ok? && ConsistentStmt(ElabStmt(s, f, ret).value.0)
    ensures SameEffect(Perform(ElabStmt(s, f, ret).value.0, vars), Do(s, env), ElabStmt(s, f, ret).value.1)
  {
    assert Agree(f.scopes, env, vars);
    hide Match, Agree, CheckAssignmentType, Lookup, Consistent, PushesWide, Eval, ValueOf, Wrap, Update;
    var y := ElabStmt(s, f, ret).value.0.value;
    StoredMeans(s.value, Lookup(f.scopes, s.name).value.dataType, f.scopes, env, vars, y);
    if ValueOf(s.value, env).Some? {
      AssignMatches(f, env, vars, s.name, ValueOf(s.value, env).value);
    }
  }

  lemma ReturnMeans(e: SExpr, f: Front, ret: Option<DataType>, env: Names, vars: Vars)
    requires Match(f, env, vars) && env != [] && Literals(e)
    requires ElabStmt(SReturnValue(e), f, ret).Ok? && Consistent(ElabExpr(e, f.scopes).value)
    ensures SameEffect(Perform(ElabStmt(SReturnValue(e), f, ret).value.0, vars), Do(SReturnValue(e), env), f)
  {
    assert Agree(f.scopes, env, vars);
    hide Match, Agree, Consistent, PushesWide, Eval, ValueOf;
    ExprMeans(e, f.scopes, env, vars);
  }

  lemma CondMeans(c: SExpr, f: Front, env: Names, vars: Vars)
    requires Match(f, env, vars) && Literals(c) && ElabExpr(c, f.scopes).Ok? && Consistent(ElabExpr(c, f.scopes).value)
    ensures Eval(ElabExpr(c, f.scopes).value, vars) == ValueOf(c, env)
  {
    ExprMeans(c, f.scopes, env, vars);
  }

  lemma MatchSizes(f: Front, env: Names, vars: Vars)
    requires Match(f, env, vars)
    ensures f.scopes != [] && |env| == |f.scopes|
  {
  }

  lemma BlockExit(ss: seq<SStmt>, f: Front, ret: Option<DataType>, env: Names, vars: Vars)
    requires f.scopes != [] && |env| == |f.scopes| && env != [] && ElabAll(ss, EnterScope(f), ret).Ok?
    requires SameEffect(PerformAll(ElabAll(ss, EnterScope(f), ret).value.0, vars), DoAll(ss, env + [map[]]),
                        ElabAll(ss, EnterScope(f), ret).value.1)
    ensures SameEffect(Perform(ElabStmt(SBlock(ss), f, ret).value.0, vars), Do(SBlock(ss), env),
                       ElabStmt(SBlock(ss), f, ret).value.1)
  {
    hide Match, ElabAll, PerformAll, DoAll;
    var (ss', f') := ElabAll(ss, EnterScope(f), ret).value;
    match (PerformAll(ss', vars), DoAll(ss, env + [map[]]))
    case (Normal(vars'), NNormal(env')) =>
      ExitMatches(f', env', vars');
    case _ =>
  }

  lemma {:induction false} IfMeans(s: SStmt, f: Front, ret: Option<DataType>, env: Names, vars: Vars)
    requires s.SIf? && Match(f, env, vars) && env != [] && LiteralsIn(s)
    requires ElabStmt(s, f, ret).Ok? && ConsistentStmt(ElabStmt(s, f, ret).value.0)
    ensures SameEffect(Perform(ElabStmt(s, f, ret).value.0, vars), Do(s, env), ElabStmt(s, f, ret).value.1)
    decreases s, 0
  {
    hide Match, ElabExpr, Consistent, PushesWide, Eval, ValueOf;
    CondMeans(s.cond, f, env, vars);
    var t := ElabStmt(s.thn, f, ret).value.0;
    PerformOne(t, vars);
    ConsistentOne(t);
    StmtMeans(s.thn, f, ret, env, vars);
    SkipMatches(s.thn, f, ret, env, vars);
  }

  lemma {:induction false} IfElseMeans(s: SStmt, f: Front, ret: Option<DataType>, env: Names, vars: Vars)
    requires s.SIfElse? && Match(f, env, vars) && env != [] && LiteralsIn(s)
    requires ElabStmt(s, f, ret).Ok? && ConsistentStmt(ElabStmt(s, f, ret).value.0)
    ensures SameEffect(Perform(ElabStmt(s, f, ret).value.0, vars), Do(s, env), ElabStmt(s, f, ret).value.1)
    decreases s, 0
  {
    hide Match, ElabExpr, Consistent, PushesWide, Eval, ValueOf;
    CondMeans(s.cond, f, env, vars);
    var (t, f1) := ElabStmt(s.thn, f, ret).value;
    var (e, f2) := ElabStmt(s.els, f1, ret).value;
    PerformOne(t, vars);
    PerformOne(e, vars);
    ConsistentOne(t);
    ConsistentOne(e);
    if ValueOf(s.cond, env).Some? {
      if ValueOf(s.cond, env).value != 0 {
        StmtMeans(s.thn, f, ret, env, vars);
        if Perform(t, vars).Normal? {
          SkipMatches(s.els, f1, ret, Do(s.thn, env).env, Perform(t, vars).vars);
        }
      } else {
        SkipMatches(s.thn, f, ret, env, vars);
        StmtMeans(s.els, f1, ret, Skip(s.thn, env), vars);
      }
    }
  }

  lemma PerformOne(s: Stmt, vars: Vars)
    ensures PerformAll([s], vars) == Perform(s, vars)
  {
    assert [s][1..] == [];
  }

  lemma ConsistentOne(s: Stmt)
    ensures ConsistentAll([s]) == ConsistentStmt(s)
  {
    assert [s][1..] == [];
  }

  lemma {:induction false} StmtsMean(ss: seq<SStmt>, f: Front, ret: Option<DataType>, env: Names, vars: Vars)
    requires Match(f, env, vars) && env != [] && LiteralsInAll(ss)
    requires ElabAll(ss, f, ret).Ok? && ConsistentAll(ElabAll(ss, f, ret).value.0)
    ensures SameEffect(PerformAll(ElabAll(ss, f, ret).value.0, vars), DoAll(ss, env), ElabAll(ss, f, ret).value.1)
    decreases ss, 0
  {
    hide Match, ElabStmt, Perform, Do, ConsistentStmt, LiteralsIn;
    if ss != [] {
      var (s, f1) := ElabStmt(ss[0], f, ret).value;
      var rest := ElabAll(ss[1..], f1, ret).value.0;
      assert ([s] + rest)[1..] == rest;
      StmtMeans(ss[0], f, ret, env, vars);
      if Perform(s, vars).Normal? {
        StmtsMean(ss[1..], f1, ret, Do(ss[0], env).env, Perform(s, vars).vars);
      }
    }
  }

  //// Functions ////

  datatype SParameter = SParameter(dataType: DataType, name: string)

  // No return type stands for void.
  datatype SFunction = SFunction(name: string, params: seq<SParameter>, ret: Option<DataType>, body: seq<SStmt>)

  // The scope of a function, its arguments declared.
  function DeclareArgs(ps: seq<SParameter>): Result<Front> {
    if ps == [] then Ok(Front([map[]], 0, 0))
    else
      var p := ps[|ps| - 1];
      match DeclareArgs(ps[..|ps| - 1])
      case Error(m) => Error(m)
      case Ok(f) =>
        match Declare(f, p.name, p.dataType, true)
        case Error(m) => Error(m)
        case Ok((f', _)) => Ok(f')
  }

  function Parameters(ps: seq<SParameter>): seq<Parameter> {
    seq(|ps|, i requires 0 <= i < |ps| => Parameter(i, ps[i].dataType))
  }

  function ElabFunction(sf: SFunction): Result<Function> {
    match DeclareArgs(sf.params)
    case Error(m) => Error(m)
    case Ok(f) =>
      match ElabAll(sf.body, f, sf.ret)
      case Error(m) => Error(m)
      case Ok((body, _)) =>
        match AddFunc(sf.ret == None, body)
        case Error(m) => Error(m)
        case Ok(ss) => Ok(Function(sf.name, Parameters(sf.params), ss))
  }

  function ArgNames(ps: seq<SParameter>, values: seq<int>): (env: Names)
    requires |ps| == |values|
    ensures |env| == 1
  {
    if ps == [] then [map[]]
    else
      var n := |ps| - 1;
      Bind(ArgNames(ps[..n], values[..n]), ps[n].name, NVar(ps[n].dataType, values[n]))
  }

  // Calling the source function.
  function Call(sf: SFunction, values: seq<int>): NEffect
    requires |sf.params| == |values|
  {
    DoAll(sf.body, ArgNames(sf.params, values))
  }

  lemma {:induction false} DeclaredArgs(ps: seq<SParameter>, values: seq<int>)
    requires |ps| == |values| && DeclareArgs(ps).Ok?
    ensures var f, env := DeclareArgs(ps).value, ArgNames(ps, values);
            && |f.scopes| == 1 && f.localVarCnt == 0 && f.argVarCnt == |ps| && f.scopes[0].Keys == env[0].Keys
            && (forall x :: x in env[0] ==>
                  exists i :: 0 <= i < |ps| && ps[i].name == x && ArgAt(f, env, ps, values, i))
  {
    if ps != [] {
      var n := |ps| - 1;
      DeclaredArgs(ps[..n], values[..n]);
      var f0, env0 := DeclareArgs(ps[..n]).value, ArgNames(ps[..n], values[..n]);
      var f, env := DeclareArgs(ps).value, ArgNames(ps, values);
      forall x | x in env[0]
        ensures exists i :: 0 <= i < |ps| && ps[i].name == x && ArgAt(f, env, ps, values, i)
      {
        if x == ps[n].name {
          assert ArgAt(f, env, ps, values, n);
        } else {
          var i :| 0 <= i < n && ps[..n][i].name == x && ArgAt(f0, env0, ps[..n], values[..n], i);
          assert ArgAt(f, env, ps, values, i);
        }
      }
    }
  }

  ghost predicate ArgAt(f: Front, env: Names, ps: seq<SParameter>, values: seq<int>, i: nat)
    requires i < |ps| == |values| && |f.scopes| == 1 == |env|
  {
    && ps[i].name in f.scopes[0] && f.scopes[0][ps[i].name] == Identifier(ArgVar(i), ps[i].dataType)
    && ps[i].name in env[0] && env[0][ps[i].name] == NVar(ps[i].dataType, values[i])
  }

  // A frame whose locals have not been written.
  ghost predicate FreshFrame(vars: Vars) {
    forall k: nat :: Get(vars, LocalVar(k)) == 0
  }

  ghost predicate ArgsFit(ps: seq<SParameter>, values: seq<int>) {
    |ps| == |values| && forall i :: 0 <= i < |ps| ==> Wrap(Wide(ps[i].dataType), values[i]) == values[i]
  }

  // The parameter a declared name stands for.
  lemma ArgOf(ps: seq<SParameter>, values: seq<int>, x: string) returns (i: nat)
    requires |ps| == |values| && DeclareArgs(ps).Ok? && x in ArgNames(ps, values)[0]
    ensures i < |ps| && |DeclareArgs(ps).value.scopes| == 1 && x in DeclareArgs(ps).value.scopes[0]
    ensures DeclareArgs(ps).value.scopes[0][x] == Identifier(ArgVar(i), ps[i].dataType)
    ensures ArgNames(ps, values)[0][x] == NVar(ps[i].dataType, values[i]) && ps[i].name == x
  {
    DeclaredArgs(ps, values);
    hide DeclareArgs, ArgNames;
    i :| 0 <= i < |ps| && ps[i].name == x && ArgAt(DeclareArgs(ps).value, ArgNames(ps, values), ps, values, i);
  }

  lemma ArgsAgree(ps: seq<SParameter>, values: seq<int>, vars: Vars)
    requires ArgsFit(ps, values) && DeclareArgs(ps).Ok?
    ensures Agree(DeclareArgs(ps).value.scopes, ArgNames(ps, values), BindArgs(Parameters(ps), values, vars))
  {
    hide Wrap, DeclareArgs, ArgNames, BindArgs;
    DeclaredArgs(ps, values);
    var f, env: Names, args := DeclareArgs(ps).value, ArgNames(ps, values), Parameters(ps);
    forall x | x in env[0]
      ensures f.scopes[0][x].dataType == env[0][x].dataType
      ensures Get(BindArgs(args, values, vars), f.scopes[0][x].slot) == env[0][x].value
      ensures Wrap(Wide(env[0][x].dataType), env[0][x].value) == env[0][x].value
    {
      var i := ArgOf(ps, values, x);
      ArgsArrive(args, values, vars, ArgVar(args[i].position));
    }
  }

  lemma ArgsApart(ps: seq<SParameter>, values: seq<int>, vars: Vars)
    requires ArgsFit(ps, values) && DeclareArgs(ps).Ok? && FreshFrame(vars)
    ensures Apart(DeclareArgs(ps).value, BindArgs(Parameters(ps), values, vars))
  {
    hide Wrap, DeclareArgs, ArgNames, BindArgs;
    DeclaredArgs(ps, values);
    var f, args := DeclareArgs(ps).value, Parameters(ps);
    forall k: nat ensures Get(BindArgs(args, values, vars), LocalVar(k)) == 0 {
      ArgsArrive(args, values, vars, LocalVar(k));
    }
    forall x, y | x in f.scopes[0] && y in f.scopes[0]
      ensures f.scopes[0][x].slot.ArgVar?
      ensures x != y ==> f.scopes[0][x].slot != f.scopes[0][y].slot
    {
      var i := ArgOf(ps, values, x);
      var j := ArgOf(ps, values, y);
    }
  }

  lemma ArgsMatch(ps: seq<SParameter>, values: seq<int>, vars: Vars)
    requires ArgsFit(ps, values) && DeclareArgs(ps).Ok? && FreshFrame(vars)
    ensures Match(DeclareArgs(ps).value, ArgNames(ps, values), BindArgs(Parameters(ps), values, vars))
  {
    hide Agree, Apart, BindArgs, ArgNames;
    ArgsAgree(ps, values, vars);
    ArgsApart(ps, values, vars);
    DeclaredArgs(ps, values);
  }

  // Compiled, a source function called with its arguments on the stack consumes
  // them and returns, below nothing else, the value its source returns; it traps
  // where its source divides by zero, and always stops within its length.
  lemma CompiledFunctionCorrect(sf: SFunction, fn: Function, values: seq<int>, stack: seq<int>, vars: Vars)
    requires ElabFunction(sf) == Ok(fn) && LiteralsInAll(sf.body) && ConsistentAll(fn.body)
    requires ArgsFit(sf.params, values) && FreshFrame(vars)
    ensures |fn.args| == |values|
    ensures var r := Steps(FunctionCode(fn), State(0, stack + ArgCells(fn.args, values), vars), |FunctionCode(fn)|);
            match Call(sf, values)
            case NTrap => r == Trapped
            case NLeft(Some((t, v))) => r.Returned? && r.stack == stack + Cells(v, Wide(t))
            case _ => r.Returned? && r.stack == stack
  {
    hide ElabAll, DoAll, ConsistentAll, LiteralsInAll, PerformAll, Match, Steps, FunctionCode, Cells, BindArgs;
    var f := DeclareArgs(sf.params).value;
    var (body, f') := ElabAll(sf.body, f, sf.ret).value;
    var vars' := BindArgs(fn.args, values, vars);
    ArgsMatch(sf.params, values, vars);
    AddFuncEndsInReturn(sf.ret == None, body);
    ConsistentPrefix(body, fn.body);
    StmtsMean(sf.body, f, sf.ret, ArgNames(sf.params, values), vars');
    BodyWithReturn(sf.ret == None, body, fn.body, vars');
    FunctionCorrect(fn, values, stack, vars);
    assert stack + [] == stack;
  }

  lemma BodyWithReturn(isVoid: bool, body: seq<Stmt>, ss: seq<Stmt>, vars: Vars)
    requires AddFunc(isVoid, body) == Ok(ss)
    ensures PerformAll(ss, vars)
         == match PerformAll(body, vars) case Normal(v) => Left([], v) case r => r
  {
    if EndsInReturn(body) {
      ReturnEndsBody(body, vars);
    } else {
      PerformTwo(body, [Return], vars);
      if PerformAll(body, vars).Normal? { PerformOne(Return, PerformAll(body, vars).vars); }
    }
  }

  lemma {:induction false} ConsistentPrefix(a: seq<Stmt>, b: seq<Stmt>)
    requires a <= b && ConsistentAll(b)
    ensures ConsistentAll(a)
  {
    if a != [] { ConsistentPrefix(a[1..], b[1..]); }
  }
}
