// Which source programs the compiler accepts, told on names and types alone: every name
// used is bound, none is declared twice in one scope, no store narrows, and every return
// has the declared type.

module Acceptance {
  import opened Options
  import opened Types
  import opened Functions
  import opened Scopes
  import opened Naming

  // The names in scope with their types, outermost scope first.
  type TypeEnv = seq<map<string, DataType>>

  function TypesOf(scopes: seq<Scope>): (env: TypeEnv)
    ensures |env| == |scopes|
  {
    seq(|scopes|, i requires 0 <= i < |scopes| => map x | x in scopes[i] :: scopes[i][x].dataType)
  }

  predicate Bound(env: TypeEnv, name: string) { exists i :: 0 <= i < |env| && name in env[i] }

  // The type of the innermost binding.
  function TypeIn(env: TypeEnv, name: string): DataType {
    if env == [] then INT
    else if name in env[|env| - 1] then env[|env| - 1][name]
    else TypeIn(env[..|env| - 1], name)
  }

  function UsedNames(e: SExpr): set<string> {
    match e
    case SId(name) => {name}
    case SInt(_) => {}
    case SLong(_) => {}
    case SBinary(_, l, r) => UsedNames(l) + UsedNames(r)
    case SNeg(x) => UsedNames(x)
    case SNot(x) => UsedNames(x)
    case SCast(_, x) => UsedNames(x)
  }

  predicate AllBound(e: SExpr, env: TypeEnv) { forall x :: x in UsedNames(e) ==> Bound(env, x) }

  // An operator on a long and an int is one on longs.
  function StaticType(e: SExpr, env: TypeEnv): DataType {
    match e
    case SId(name) => TypeIn(env, name)
    case SInt(_) => INT
    case SLong(_) => LONG
    case SBinary(_, l, r) => if StaticType(l, env) == LONG || StaticType(r, env) == LONG then LONG else INT
    case SNeg(x) => StaticType(x, env)
    case SNot(x) => StaticType(x, env)
    case SCast(t, _) => t
  }

  predicate Narrows(to: DataType, from: DataType) { to == INT && from == LONG }

  function Declaring(env: TypeEnv, name: string, t: DataType): (r: TypeEnv)
    requires env != []
    ensures |r| == |env|
  {
    env[|env| - 1 := env[|env| - 1][name := t]]
  }

  // The names in scope behind a statement: what it declares outside any block of its own.
  function Behind(s: SStmt, env: TypeEnv): (r: TypeEnv)
    requires env != []
    ensures |r| == |env|
  {
    match s
    case SDecl(t, name) => Declaring(env, name, t)
    case SInit(t, name, _) => Declaring(env, name, t)
    case SIf(_, thn) => Behind(thn, env)
    case SIfElse(_, thn, els) => Behind(els, Behind(thn, env))
    case _ => env
  }

  predicate Accepted(s: SStmt, env: TypeEnv, ret: Option<DataType>)
    requires env != []
    decreases s, 1
  {
    match s
    case SDecl(_, name) => name !in env[|env| - 1]
    case SInit(t, name, e) => name !in env[|env| - 1] && AllBound(e, env) && !Narrows(t, StaticType(e, env))
    case SAssign(name, e) => Bound(env, name) && AllBound(e, env) && !Narrows(TypeIn(env, name), StaticType(e, env))
    case SBlock(ss) => AllAccepted(ss, env + [map[]], ret)
    case SIf(c, thn) => AllBound(c, env) && Accepted(thn, env, ret)
    case SIfElse(c, thn, els) => AllBound(c, env) && Accepted(thn, env, ret) && Accepted(els, Behind(thn, env), ret)
    case SReturn => true
    case SReturnValue(e) => AllBound(e, env) && ret == Some(StaticType(e, env))
  }

  predicate AllAccepted(ss: seq<SStmt>, env: TypeEnv, ret: Option<DataType>)
    requires env != []
    decreases ss, 0
  {
    ss == [] || (Accepted(ss[0], env, ret) && AllAccepted(ss[1..], Behind(ss[0], env), ret))
  }

  //// Expressions ////

  lemma {:induction false} LookupTypes(scopes: seq<Scope>, name: string)
    ensures Lookup(scopes, name).Some? <==> Bound(TypesOf(scopes), name)
    ensures Lookup(scopes, name).Some? ==> Lookup(scopes, name).value.dataType == TypeIn(TypesOf(scopes), name)
  {
    if scopes != [] {
      var n, env := |scopes| - 1, TypesOf(scopes);
      LookupTypes(scopes[..n], name);
      assert TypesOf(scopes[..n]) == env[..n];
      if name in env[n] {
        assert Bound(env, name);
      } else if i :| 0 <= i < |env| && name in env[i] {
        assert name in env[..n][i];
      }
    }
  }

  lemma {:induction false} ExprAccepted(e: SExpr, scopes: seq<Scope>)
    ensures ElabExpr(e, scopes).Ok? <==> AllBound(e, TypesOf(scopes))
    ensures ElabExpr(e, scopes).Ok? ==> ElabExpr(e, scopes).value.dataType == StaticType(e, TypesOf(scopes))
  {
    hide CheckBinary, TypesOf, Bound;
    match e
    case SId(name) => LookupTypes(scopes, name);
    case SInt(_) =>
    case SLong(_) =>
    case SBinary(op, l, r) =>
      ExprAccepted(l, scopes);
      ExprAccepted(r, scopes);
      if ElabExpr(l, scopes).Ok? && ElabExpr(r, scopes).Ok? {
        ElabWellTyped(l, scopes);
        ElabWellTyped(r, scopes);
        PromotionIsTotal(op, ElabExpr(l, scopes).value, ElabExpr(r, scopes).value);
      }
    case SNeg(x) => ExprAccepted(x, scopes);
    case SNot(x) =>
      ExprAccepted(x, scopes);
      if ElabExpr(x, scopes).Ok? {
        ElabWellTyped(x, scopes);
        PromotionIsTotal(EQ, ElabExpr(x, scopes).value, Number(0, INT));
      }
    case SCast(_, x) => ExprAccepted(x, scopes);
  }

  // A store of a checked expression.
  lemma StoreAccepted(t: DataType, e: SExpr, scopes: seq<Scope>)
    requires ElabExpr(e, scopes).Ok?
    ensures CheckAssignmentType(t, ElabExpr(e, scopes).value).Ok? <==> !Narrows(t, StaticType(e, TypesOf(scopes)))
  {
    hide CheckAssignmentType, TypesOf;
    ExprAccepted(e, scopes);
    ElabWellTyped(e, scopes);
    AssignmentExact(t, ElabExpr(e, scopes).value);
  }

  //// Statements ////

  lemma DeclareTypes(f: Front, name: string, t: DataType, isArg: bool)
    requires f.scopes != []
    ensures Declare(f, name, t, isArg).Ok? <==> name !in TypesOf(f.scopes)[|f.scopes| - 1]
    ensures Declare(f, name, t, isArg).Ok? ==>
              TypesOf(Declare(f, name, t, isArg).value.0.scopes) == Declaring(TypesOf(f.scopes), name, t)
  {
    DeclareExact(f, name, t, isArg);
    if Declare(f, name, t, isArg).Ok? {
      var n, scopes := |f.scopes| - 1, Declare(f, name, t, isArg).value.0.scopes;
      hide Declare;
      var after, wanted := TypesOf(scopes), Declaring(TypesOf(f.scopes), name, t);
      forall i | 0 <= i < |after|
        ensures after[i] == wanted[i]
      {
        if i < n { assert scopes[i] == scopes[..n][i] == f.scopes[..n][i]; }
      }
    }
  }

  lemma EnterTypes(f: Front)
    ensures TypesOf(EnterScope(f).scopes) == TypesOf(f.scopes) + [map[]]
  {
  }

  // A statement is accepted exactly when names and types allow it, and the names in scope
  // behind it are those declared.
  lemma {:induction false} StmtAccepted(s: SStmt, f: Front, ret: Option<DataType>)
    requires f.scopes != []
    ensures ElabStmt(s, f, ret).Ok? <==> Accepted(s, TypesOf(f.scopes), ret)
    ensures ElabStmt(s, f, ret).Ok? ==> TypesOf(ElabStmt(s, f, ret).value.1.scopes) == Behind(s, TypesOf(f.scopes))
    decreases s, 1
  {
    hide ElabExpr, CheckAssignmentType, Lookup, TypesOf, AllBound, Bound, StaticType, TypeIn, Declare, Declaring;
    match s
    case SDecl(t, name) => DeclareTypes(f, name, t, false);
    case SInit(t, name, e) =>
      DeclareTypes(f, name, t, false);
      ExprAccepted(e, f.scopes);
      if ElabExpr(e, f.scopes).Ok? { StoreAccepted(t, e, f.scopes); }
    case SAssign(name, e) =>
      LookupTypes(f.scopes, name);
      ExprAccepted(e, f.scopes);
      if ElabExpr(e, f.scopes).Ok? { StoreAccepted(TypeIn(TypesOf(f.scopes), name), e, f.scopes); }
    case SBlock(ss) => BlockAccepted(ss, f, ret);
    case SIf(c, thn) =>
      ExprAccepted(c, f.scopes);
      StmtAccepted(thn, f, ret);
    case SIfElse(c, thn, els) =>
      ExprAccepted(c, f.scopes);
      StmtAccepted(thn, f, ret);
      if ElabStmt(thn, f, ret).Ok? { StmtAccepted(els, ElabStmt(thn, f, ret).value.1, ret); }
    case SReturn =>
    case SReturnValue(e) => ExprAccepted(e, f.scopes);
  }

  lemma {:induction false} BlockAccepted(ss: seq<SStmt>, f: Front, ret: Option<DataType>)
    requires f.scopes != []
    ensures ElabStmt(SBlock(ss), f, ret).Ok? <==> AllAccepted(ss, TypesOf(f.scopes) + [map[]], ret)
    ensures ElabStmt(SBlock(ss), f, ret).Ok? ==>
              TypesOf(ElabStmt(SBlock(ss), f, ret).value.1.scopes) == TypesOf(f.scopes)
    decreases ss, 1
  {
    EnterTypes(f);
    StmtsAccepted(ss, EnterScope(f), ret);
    if ElabAll(ss, EnterScope(f), ret).Ok? {
      var f' := ElabAll(ss, EnterScope(f), ret).value.1;
      OuterTypes(ss, TypesOf(EnterScope(f).scopes), |f.scopes|);
      assert TypesOf(ExitScope(f').scopes) == TypesOf(f'.scopes)[..|f.scopes|];
      assert TypesOf(EnterScope(f).scopes)[..|f.scopes|] == TypesOf(f.scopes);
    }
  }

  // What lies behind a whole list.
  function BehindAll(ss: seq<SStmt>, env: TypeEnv): (r: TypeEnv)
    requires env != []
    ensures |r| == |env|
  {
    if ss == [] then env else BehindAll(ss[1..], Behind(ss[0], env))
  }

  lemma {:induction false} OuterType(s: SStmt, env: TypeEnv, k: nat)
    requires k < |env|
    ensures Behind(s, env)[..k] == env[..k]
  {
    match s
    case SIf(_, thn) => OuterType(thn, env, k);
    case SIfElse(_, thn, els) =>
      OuterType(thn, env, k);
      OuterType(els, Behind(thn, env), k);
    case _ =>
  }

  lemma {:induction false} OuterTypes(ss: seq<SStmt>, env: TypeEnv, k: nat)
    requires k < |env|
    ensures BehindAll(ss, env)[..k] == env[..k]
  {
    if ss != [] {
      OuterType(ss[0], env, k);
      OuterTypes(ss[1..], Behind(ss[0], env), k);
    }
  }

  lemma {:induction false} StmtsAccepted(ss: seq<SStmt>, f: Front, ret: Option<DataType>)
    requires f.scopes != []
    ensures ElabAll(ss, f, ret).Ok? <==> AllAccepted(ss, TypesOf(f.scopes), ret)
    ensures ElabAll(ss, f, ret).Ok? ==> TypesOf(ElabAll(ss, f, ret).value.1.scopes) == BehindAll(ss, TypesOf(f.scopes))
    decreases ss, 0
  {
    hide ElabStmt, Accepted, TypesOf, Behind;
    if ss != [] {
      StmtAccepted(ss[0], f, ret);
      if ElabStmt(ss[0], f, ret).Ok? { StmtsAccepted(ss[1..], ElabStmt(ss[0], f, ret).value.1, ret); }
    }
  }

  //// Functions ////

  // The parameters' names with their types.
  function ParameterTypes(ps: seq<SParameter>): map<string, DataType> {
    if ps == [] then map[] else ParameterTypes(ps[..|ps| - 1])[ps[|ps| - 1].name := ps[|ps| - 1].dataType]
  }

  predicate DistinctParameters(ps: seq<SParameter>) {
    forall i, j :: 0 <= i < j < |ps| ==> ps[i].name != ps[j].name
  }

  predicate HasParameter(ps: seq<SParameter>, name: string) { exists i :: 0 <= i < |ps| && ps[i].name == name }

  lemma {:induction false} ParametersAccepted(ps: seq<SParameter>)
    ensures DeclareArgs(ps).Ok? <==> DistinctParameters(ps)
    ensures DeclareArgs(ps).Ok? ==> TypesOf(DeclareArgs(ps).value.scopes) == [ParameterTypes(ps)]
    ensures forall x :: x in ParameterTypes(ps) <==> HasParameter(ps, x)
  {
    if ps == [] {
      assert TypesOf([map[]]) == [map[]];
    } else {
      var n := |ps| - 1;
      ParametersAccepted(ps[..n]);
      forall x
        ensures HasParameter(ps, x) <==> ps[n].name == x || HasParameter(ps[..n], x)
      {
        OneMoreParameter(ps, x);
      }
      if DeclareArgs(ps[..n]).Ok? {
        var f := DeclareArgs(ps[..n]).value;
        hide TypesOf, Declare;
        DeclareTypes(f, ps[n].name, ps[n].dataType, true);
        LastIsDistinct(ps);
      } else {
        PrefixIsDistinct(ps);
      }
    }
  }

  lemma OneMoreParameter(ps: seq<SParameter>, x: string)
    requires ps != []
    ensures HasParameter(ps, x) <==> ps[|ps| - 1].name == x || HasParameter(ps[..|ps| - 1], x)
  {
    var n := |ps| - 1;
    if i :| 0 <= i < n && ps[i].name == x { assert ps[..n][i].name == x; }
  }

  lemma PrefixIsDistinct(ps: seq<SParameter>)
    requires ps != []
    ensures DistinctParameters(ps) ==> DistinctParameters(ps[..|ps| - 1])
  {
  }

  lemma LastIsDistinct(ps: seq<SParameter>)
    requires ps != [] && DistinctParameters(ps[..|ps| - 1])
    ensures DistinctParameters(ps) <==> !HasParameter(ps[..|ps| - 1], ps[|ps| - 1].name)
  {
    var n := |ps| - 1;
    if i :| 0 <= i < n && ps[..n][i].name == ps[n].name {
      assert ps[i].name == ps[n].name;
    }
    forall i, j | 0 <= i < j < n
      ensures ps[i].name != ps[j].name
    {
      assert ps[..n][i].name != ps[..n][j].name;
    }
  }

  predicate IsLastReturn(ss: seq<SStmt>) { ss != [] && (ss[|ss| - 1].SReturn? || ss[|ss| - 1].SReturnValue?) }

  lemma {:induction false} LastReturnKept(ss: seq<SStmt>, f: Front, ret: Option<DataType>)
    requires ElabAll(ss, f, ret).Ok?
    ensures |ElabAll(ss, f, ret).value.0| == |ss|
    ensures EndsInReturn(ElabAll(ss, f, ret).value.0) <==> IsLastReturn(ss)
    decreases |ss|
  {
    hide ElabStmt;
    if ss != [] {
      var (s, f1) := ElabStmt(ss[0], f, ret).value;
      ReturnKept(ss[0], f, ret);
      LastReturnKept(ss[1..], f1, ret);
    }
  }

  lemma ReturnKept(s: SStmt, f: Front, ret: Option<DataType>)
    requires ElabStmt(s, f, ret).Ok?
    ensures IsReturn(ElabStmt(s, f, ret).value.0) <==> s.SReturn? || s.SReturnValue?
  {
    hide ElabExpr, CheckAssignmentType, Declare, Lookup, ElabAll;
  }

  // A function is accepted exactly when its parameters have different names, its body is
  // accepted with them in scope, and it is void or its body ends in a return.
  lemma FunctionAccepted(sf: SFunction)
    ensures ElabFunction(sf).Ok? <==>
            DistinctParameters(sf.params) && AllAccepted(sf.body, [ParameterTypes(sf.params)], sf.ret)
            && (sf.ret == None || IsLastReturn(sf.body))
  {
    ParametersAccepted(sf.params);
    hide ElabAll, DeclareArgs, TypesOf, ParameterTypes, AllAccepted, DistinctParameters;
    if DeclareArgs(sf.params).Ok? {
      var f := DeclareArgs(sf.params).value;
      StmtsAccepted(sf.body, f, sf.ret);
      if ElabAll(sf.body, f, sf.ret).Ok? {
        LastReturnKept(sf.body, f, sf.ret);
        AddFuncEndsInReturn(sf.ret == None, ElabAll(sf.body, f, sf.ret).value.0);
      }
    }
  }

  // int f() { int x = 1; { int x = 2; } return x; }
  const SHADOWING: SFunction := SFunction("f", [], Some(INT), [
    SInit(INT, "x", SInt(1)),
    SBlock([SInit(INT, "x", SInt(2))]),
    SReturnValue(SId("x"))
  ])

  // An inner scope may declare a name again, and the outer one keeps its value.
  lemma ShadowingAccepted()
    ensures ElabFunction(SHADOWING).Ok? && Call(SHADOWING, []) == NLeft(Some((INT, 1)))
  {
    var ss, x := SHADOWING.body, map["x" := INT];
    assert ss[1..][1..] == ss[2..] && ss[2..][1..] == [];
    InnerAccepted();
    hide AllBound, StaticType;
    assert Behind(ss[0], [map[]]) == [x] && Behind(ss[1], [x]) == [x] && Behind(ss[2], [x]) == [x];
    assert AllAccepted(ss[2..], [x], Some(INT));
    assert AllAccepted(ss[1..], [x], Some(INT));
    assert AllAccepted(ss, [map[]], Some(INT));
    FunctionAccepted(SHADOWING);
    ShadowingCall();
  }

  lemma InnerAccepted()
    ensures var ss, x := SHADOWING.body, map["x" := INT];
            Accepted(ss[0], [map[]], Some(INT)) && Accepted(ss[1], [x], Some(INT)) && Accepted(ss[2], [x], Some(INT))
  {
    var x, inner := map["x" := INT], SInit(INT, "x", SInt(2));
    var outer: TypeEnv := [x];
    assert "x" in outer[0];
    assert Bound(outer, "x");
    assert Accepted(inner, outer + [map[]], Some(INT)) && [inner][1..] == [];
    assert AllAccepted([inner], outer + [map[]], Some(INT));
  }

  lemma ShadowingCall()
    ensures Call(SHADOWING, []) == NLeft(Some((INT, 1)))
  {
    var ss, inner := SHADOWING.body, [SInit(INT, "x", SInt(2))];
    var env: Names := [map["x" := NVar(INT, 1)]];
    assert inner[1..] == [] && ss[1..][1..] == ss[2..] && ss[2..][1..] == [];
    assert Do(ss[0], [map[]]) == NNormal(env);
    assert (env + [map["x" := NVar(INT, 2)]])[..1] == env;
    assert DoAll(inner, env + [map[]]) == NNormal(env + [map["x" := NVar(INT, 2)]]);
    assert Do(ss[1], env) == NNormal(env);
    assert Do(ss[2], env) == NLeft(Some((INT, 1)));
    assert DoAll(ss[2..], env) == NLeft(Some((INT, 1)));
    assert DoAll(ss[1..], env) == NLeft(Some((INT, 1)));
  }
}
