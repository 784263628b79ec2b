// Scopes, variable ordinals and the typed tree the parser's actions build
// (compiler/compiler.cpp:110-178, compiler/parser.yy).

module Scopes {
  import opened Options
  import opened Types
  import opened Code

  datatype Identifier = Identifier(slot: Slot, dataType: DataType)

  type Scope = map<string, Identifier>

  // The compiler's state while it parses one function.
  datatype Front = Front(scopes: seq<Scope>, localVarCnt: nat, argVarCnt: nat)

  //// DeclVar and UseVar ////

  function Declare(f: Front, name: string, dataType: DataType, isArg: bool): Result<(Front, Identifier)> {
    if f.scopes == [] then Error("Variables may not be declared in global scope.") else
    var n := |f.scopes| - 1;
    if name in f.scopes[n] then Error("already been defined") else
    var id := Identifier(if isArg then ArgVar(f.argVarCnt) else LocalVar(f.localVarCnt), dataType);
    Ok((Front(f.scopes[n := f.scopes[n][name := id]],
              f.localVarCnt + (if isArg then 0 else 1), f.argVarCnt + (if isArg then 1 else 0)), id))
  }

  // The innermost scope that has the name decides.
  function Lookup(scopes: seq<Scope>, name: string): Option<Identifier> {
    if scopes == [] then None
    else
      var n := |scopes| - 1;
      if name in scopes[n] then Some(scopes[n][name]) else Lookup(scopes[..n], name)
  }

  // A declaration is accepted exactly when there is a scope and the innermost one does not
  // have the name; enclosing scopes may have it.
  lemma DeclareExact(f: Front, name: string, dataType: DataType, isArg: bool)
    ensures Declare(f, name, dataType, isArg).Ok? <==> f.scopes != [] && name !in f.scopes[|f.scopes| - 1]
    ensures Declare(f, name, dataType, isArg).Ok? ==>
              var (f', id) := Declare(f, name, dataType, isArg).value;
              && id == Identifier(if isArg then ArgVar(f.argVarCnt) else LocalVar(f.localVarCnt), dataType)
              && |f'.scopes| == |f.scopes| && f'.scopes[..|f.scopes| - 1] == f.scopes[..|f.scopes| - 1]
              && f'.scopes[|f.scopes| - 1] == f.scopes[|f.scopes| - 1][name := id]
              && f'.localVarCnt + f'.argVarCnt == f.localVarCnt + f.argVarCnt + 1
  {
  }

  // A use means the binding of the innermost scope that has the name.
  lemma {:induction false} LookupExact(scopes: seq<Scope>, name: string)
    ensures Lookup(scopes, name) == None <==> forall k :: 0 <= k < |scopes| ==> name !in scopes[k]
    ensures forall k :: 0 <= k < |scopes| && name in scopes[k]
                        && (forall j :: k < j < |scopes| ==> name !in scopes[j]) ==>
              Lookup(scopes, name) == Some(scopes[k][name])
  {
    if scopes != [] {
      var n := |scopes| - 1;
      if name !in scopes[n] { LookupExact(scopes[..n], name); }
    }
  }

  class RackCompiler {
    var scopes: seq<Scope>
    var localVarCnt: nat
    var argVarCnt: nat

    constructor ()
      ensures State() == Front([], 0, 0)
    {
      scopes, localVarCnt, argVarCnt := [], 0, 0;
    }

    function State(): Front
      reads this
    {
      Front(scopes, localVarCnt, argVarCnt)
    }

    method EnterScope()
      modifies this
      ensures State() == old(State()).(scopes := old(scopes) + [map[]])
    {
      scopes := scopes + [map[]];
    }

    method ExitScope()
      requires scopes != []
      modifies this
      ensures State() == old(State()).(scopes := old(scopes)[..|old(scopes)| - 1])
    {
      scopes := scopes[..|scopes| - 1];
    }

    // A rejected redeclaration has counted all the same; parsing ends there.
    method DeclVar(dataType: DataType, name: string, isArg: bool) returns (r: Result<Identifier>)
      modifies this
      ensures match Declare(old(State()), name, dataType, isArg)
              case Ok((f, id)) => r == Ok(id) && State() == f
              case Error(_) => r.Error? && scopes == old(scopes)
    {
      if scopes == [] {
        return Error("Variables may not be declared in global scope.");
      }
      var position;
      if isArg {
        position := argVarCnt;
        argVarCnt := argVarCnt + 1;
      } else {
        position := localVarCnt;
        localVarCnt := localVarCnt + 1;
      }
      var n := |scopes| - 1;
      if name in scopes[n] {
        return Error("already been defined");
      }
      var id := Identifier(if isArg then ArgVar(position) else LocalVar(position), dataType);
      scopes := scopes[n := scopes[n][name := id]];
      return Ok(id);
    }

    method UseVar(name: string) returns (r: Result<Identifier>)
      ensures match Lookup(scopes, name)
              case Some(id) => r == Ok(id)
              case None => r.Error?
    {
      var k := |scopes|;
      assert scopes[..k] == scopes;
      while k > 0
        invariant 0 <= k <= |scopes|
        invariant Lookup(scopes, name) == Lookup(scopes[..k], name)
      {
        if name in scopes[k - 1] {
          return Ok(scopes[k - 1][name]);
        }
        assert scopes[..k][..k - 1] == scopes[..k - 1];
        k := k - 1;
      }
      return Error("Unknown identifier");
    }
  }

  //// Source trees, and the typed trees built from them ////

  datatype SExpr =
    | SId(name: string)
    | SInt(value: int)
    | SLong(value: int)
    | SBinary(op: BinaryOp, lhs: SExpr, rhs: SExpr)
    | SNeg(operand: SExpr)
    | SNot(operand: SExpr)
    | SCast(dataType: DataType, operand: SExpr)

  datatype SStmt =
    | SDecl(dataType: DataType, name: string)
    | SInit(dataType: DataType, name: string, value: SExpr)
    | SAssign(name: string, value: SExpr)
    | SBlock(body: seq<SStmt>)
    | SIf(cond: SExpr, thn: SStmt)
    | SIfElse(cond: SExpr, thn: SStmt, els: SStmt)
    | SReturn
    | SReturnValue(value: SExpr)

  function ElabExpr(e: SExpr, scopes: seq<Scope>): Result<Expr> {
    match e
    case SId(name) =>
      (match Lookup(scopes, name)
       case Some(id) => Ok(Id(id.slot, id.dataType))
       case None => Error("Unknown identifier"))
    case SInt(v) => Ok(Number(v, INT))
    case SLong(v) => Ok(Number(v, LONG))
    case SBinary(op, l, r) =>
      (match (ElabExpr(l, scopes), ElabExpr(r, scopes))
       case (Ok(l'), Ok(r')) => CheckBinary(op, l', r')
       case (Error(m), _) => Error(m)
       case (_, Error(m)) => Error(m))
    case SNeg(x) =>
      (match ElabExpr(x, scopes)
       case Ok(x') => Ok(Neg(x', x'.dataType))
       case Error(m) => Error(m))
    case SNot(x) =>
      (match ElabExpr(x, scopes)
       case Ok(x') => CheckBinary(EQ, x', Number(0, INT))
       case Error(m) => Error(m))
    case SCast(t, x) =>
      (match ElabExpr(x, scopes)
       case Ok(x') => Ok(Cast(x', t))
       case Error(m) => Error(m))
  }

  function EnterScope(f: Front): Front { f.(scopes := f.scopes + [map[]]) }

  function ExitScope(f: Front): Front
    requires f.scopes != []
  {
    f.(scopes := f.scopes[..|f.scopes| - 1])
  }

  // The initial value is parsed before its variable is declared. A return is
  // checked against the type of the function, absent for void.
  function ElabStmt(s: SStmt, f: Front, ret: Option<DataType>): (r: Result<(Stmt, Front)>)
    ensures r.Ok? ==> |r.value.1.scopes| == |f.scopes|
    decreases s, 1
  {
    match s
    case SDecl(t, name) =>
      (match Declare(f, name, t, false)
       case Ok((f', id)) => Ok((Decl(id.slot, t), f'))
       case Error(m) => Error(m))
    case SInit(t, name, e) =>
      (match ElabExpr(e, f.scopes)
       case Error(m) => Error(m)
       case Ok(x) =>
         match (Declare(f, name, t, false), CheckAssignmentType(t, x))
         case (Ok((f', id)), Ok(v)) => Ok((Init(id.slot, t, v), f'))
         case (Error(m), _) => Error(m)
         case (_, Error(m)) => Error(m))
    case SAssign(name, e) =>
      (match (Lookup(f.scopes, name), ElabExpr(e, f.scopes))
       case (None, _) => Error("Unknown identifier")
       case (_, Error(m)) => Error(m)
       case (Some(id), Ok(x)) =>
         match CheckAssignmentType(id.dataType, x)
         case Error(m) => Error(m)
         case Ok(v) => Ok((Assign(id.slot, id.dataType, v), f)))
    case SBlock(ss) =>
      (match ElabAll(ss, EnterScope(f), ret)
       case Error(m) => Error(m)
       case Ok((ss', f')) => Ok((Block(ss'), ExitScope(f'))))
    case SIf(c, thn) =>
      (match ElabExpr(c, f.scopes)
       case Error(m) => Error(m)
       case Ok(c') =>
         match ElabStmt(thn, f, ret)
         case Error(m) => Error(m)
         case Ok((t, f')) => Ok((If(c', [t]), f')))
    case SIfElse(c, thn, els) =>
      (match ElabExpr(c, f.scopes)
       case Error(m) => Error(m)
       case Ok(c') =>
         match ElabStmt(thn, f, ret)
         case Error(m) => Error(m)
         case Ok((t, f1)) =>
           match ElabStmt(els, f1, ret)
           case Error(m) => Error(m)
           case Ok((e, f2)) => Ok((IfElse(c', [t], [e]), f2)))
    case SReturn => Ok((Return, f))
    case SReturnValue(e) =>
      (match ElabExpr(e, f.scopes)
       case Error(m) => Error(m)
       case Ok(x) => if ret == Some(x.dataType) then Ok((ReturnValue(x), f))
                     else Error("Return value does not match function declaration"))
  }

  function ElabAll(ss: seq<SStmt>, f: Front, ret: Option<DataType>): (r: Result<(seq<Stmt>, Front)>)
    ensures r.Ok? ==> |r.value.1.scopes| == |f.scopes|
    decreases ss, 0
  {
    if ss == [] then Ok(([], f))
    else
      match ElabStmt(ss[0], f, ret)
      case Error(m) => Error(m)
      case Ok((s, f1)) =>
        match ElabAll(ss[1..], f1, ret)
        case Error(m) => Error(m)
        case Ok((rest, f2)) => Ok(([s] + rest, f2))
  }

  //// Every local gets a slot of its own ////

  function Declared(s: Stmt): seq<Slot>
    decreases s, 1
  {
    match s
    case Decl(slot, _) => [slot]
    case Init(slot, _, _) => [slot]
    case Block(ss) => DeclaredAll(ss)
    case If(_, thn) => DeclaredAll(thn)
    case IfElse(_, thn, els) => DeclaredAll(thn) + DeclaredAll(els)
    case _ => []
  }

  function DeclaredAll(ss: seq<Stmt>): seq<Slot>
    decreases ss, 0
  {
    if ss == [] then [] else Declared(ss[0]) + DeclaredAll(ss[1..])
  }

  function Locals(from: nat, to: nat): seq<Slot>
    requires from <= to
  {
    seq(to - from, i requires 0 <= i => LocalVar(from + i))
  }

  // Over a whole body, sibling and shadowing scopes included, the declarations
  // take the ordinals in order, each exactly once.
  lemma {:induction false} SlotsInOrder(s: SStmt, f: Front, ret: Option<DataType>)
    requires ElabStmt(s, f, ret).Ok?
    ensures f.localVarCnt <= ElabStmt(s, f, ret).value.1.localVarCnt
    ensures Declared(ElabStmt(s, f, ret).value.0) == Locals(f.localVarCnt, ElabStmt(s, f, ret).value.1.localVarCnt)
    decreases s, 1
  {
    hide ElabExpr, CheckAssignmentType, Lookup, Locals;
    NoLocals(f.localVarCnt);
    match s
    case SDecl(t, name) => OneLocal(f.localVarCnt);
    case SInit(t, name, e) => OneLocal(f.localVarCnt);
    case SAssign(name, e) =>
    case SBlock(ss) => SlotsInOrderAll(ss, EnterScope(f), ret);
    case SIf(c, thn) =>
      SlotsInOrder(thn, f, ret);
      DeclaredOne(ElabStmt(thn, f, ret).value.0);
    case SIfElse(c, thn, els) =>
      var (t, f1) := ElabStmt(thn, f, ret).value;
      SlotsInOrder(thn, f, ret);
      SlotsInOrder(els, f1, ret);
      DeclaredOne(t);
      DeclaredOne(ElabStmt(els, f1, ret).value.0);
      LocalsJoin(f.localVarCnt, f1.localVarCnt, ElabStmt(els, f1, ret).value.1.localVarCnt);
    case SReturn =>
    case SReturnValue(e) =>
  }

  lemma NoLocals(n: nat)
    ensures Locals(n, n) == []
  {
  }

  lemma OneLocal(n: nat)
    ensures Locals(n, n + 1) == [LocalVar(n)]
  {
  }

  lemma LocalsJoin(a: nat, b: nat, c: nat)
    requires a <= b <= c
    ensures Locals(a, b) + Locals(b, c) == Locals(a, c)
  {
  }

  lemma DeclaredOne(s: Stmt)
    ensures DeclaredAll([s]) == Declared(s)
  {
    assert [s][1..] == [];
  }

  lemma {:induction false} SlotsInOrderAll(ss: seq<SStmt>, f: Front, ret: Option<DataType>)
    requires ElabAll(ss, f, ret).Ok?
    ensures f.localVarCnt <= ElabAll(ss, f, ret).value.1.localVarCnt
    ensures DeclaredAll(ElabAll(ss, f, ret).value.0) == Locals(f.localVarCnt, ElabAll(ss, f, ret).value.1.localVarCnt)
    decreases ss, 0
  {
    hide ElabStmt;
    if ss != [] {
      var (s, f1) := ElabStmt(ss[0], f, ret).value;
      SlotsInOrder(ss[0], f, ret);
      SlotsInOrderAll(ss[1..], f1, ret);
      var rest := ElabAll(ss[1..], f1, ret).value.0;
      assert ([s] + rest)[1..] == rest;
    }
  }
}
