// Typed expression trees and the rules that give them their types
// (compiler/types.hpp), for the integer types.

module Types {
  import opened Options
  import opened Words

  datatype DataType = INT | LONG

  predicate Wide(t: DataType) { t == LONG }

  // Where `DeclVar` put a variable: an ordinal among the locals or the arguments.
  datatype Slot = LocalVar(position: nat) | ArgVar(position: nat)

  datatype BinaryOp = ADD | SUB | MUL | DIV | EQ | NEQ | GT | LT | GEQ | LEQ | OR | AND

  predicate IsArithmetic(op: BinaryOp) { op.ADD? || op.SUB? || op.MUL? || op.DIV? }

  predicate IsLogical(op: BinaryOp) { op.OR? || op.AND? }

  predicate IsComparison(op: BinaryOp) { !IsArithmetic(op) && !IsLogical(op) }

  datatype Expr =
    | Id(slot: Slot, dataType: DataType)
    | Number(value: int, dataType: DataType)
    | Binary(op: BinaryOp, lhs: Expr, rhs: Expr, dataType: DataType)
    | Neg(operand: Expr, dataType: DataType)
    | Cast(operand: Expr, dataType: DataType)

  //// Type rules ////

  // The rewritten expression, or nothing when there is no such implicit cast.
  function TryTypeCast(e: Expr, toType: DataType): Option<Expr> {
    if e.dataType == INT && toType == LONG then
      if e.Number? then Some(Number(e.value, LONG)) else Some(Cast(e, LONG))
    else
      None
  }

  function TryTypePromotion(lhs: Expr, rhs: Expr): Option<(Expr, Expr)> {
    if lhs.dataType == INT && rhs.dataType == LONG then
      match TryTypeCast(lhs, LONG)
      case Some(l) => Some((l, rhs))
      case None => None
    else if lhs.dataType == LONG && rhs.dataType == INT then
      match TryTypeCast(rhs, LONG)
      case Some(r) => Some((lhs, r))
      case None => None
    else
      None
  }

  // CheckType on a binary node the parser has just built from checked operands.
  function CheckBinary(op: BinaryOp, lhs: Expr, rhs: Expr): Result<Expr> {
    if lhs.dataType != rhs.dataType then
      match TryTypePromotion(lhs, rhs)
      case None => Error("Conflicting data types")
      case Some((l, r)) => Ok(Binary(op, l, r, l.dataType))
    else
      Ok(Binary(op, lhs, rhs, lhs.dataType))
  }

  // The value an assignment stores: line 562 takes the type of an operator's
  // first operand when that is a plain identifier.
  function CheckAssignmentType(target: DataType, value: Expr): Result<Expr> {
    var valueType :=
      if value.Binary? && value.lhs.Id? then value.lhs.dataType
      else if value.Neg? && value.operand.Id? then value.operand.dataType
      else value.dataType;
    if valueType != target then
      match TryTypeCast(value, target)
      case None => Error("Assigned with a conflicting data type")
      case Some(v) => Ok(v)
    else
      Ok(value)
  }

  // Every operator node has the type of its operands.
  predicate WellTyped(e: Expr) {
    match e
    case Id(_, _) => true
    case Number(_, _) => true
    case Binary(_, l, r, t) => WellTyped(l) && WellTyped(r) && l.dataType == t == r.dataType
    case Neg(x, t) => WellTyped(x) && x.dataType == t
    case Cast(x, _) => WellTyped(x)
  }

  lemma {:induction false} PromotionIsTotal(op: BinaryOp, lhs: Expr, rhs: Expr)
    requires WellTyped(lhs) && WellTyped(rhs)
    ensures CheckBinary(op, lhs, rhs).Ok? && WellTyped(CheckBinary(op, lhs, rhs).value)
    ensures Wide(CheckBinary(op, lhs, rhs).value.dataType) <==> Wide(lhs.dataType) || Wide(rhs.dataType)
  {
    if lhs.dataType == INT && rhs.dataType == LONG {
      WidenedIsWellTyped(lhs);
      hide WellTyped;
      assert TryTypePromotion(lhs, rhs) == Some((TryTypeCast(lhs, LONG).value, rhs));
      assert CheckBinary(op, lhs, rhs) == Ok(Binary(op, TryTypeCast(lhs, LONG).value, rhs, LONG));
    } else if lhs.dataType == LONG && rhs.dataType == INT {
      WidenedIsWellTyped(rhs);
      hide WellTyped;
      assert TryTypePromotion(lhs, rhs) == Some((lhs, TryTypeCast(rhs, LONG).value));
      assert CheckBinary(op, lhs, rhs) == Ok(Binary(op, lhs, TryTypeCast(rhs, LONG).value, LONG));
    }
  }

  // A literal is widened in place, anything else by a cast; either way no value changes.
  lemma {:induction false} WidenedIsWellTyped(e: Expr)
    requires WellTyped(e) && e.dataType == INT
    ensures TryTypeCast(e, LONG).Some?
    ensures WellTyped(TryTypeCast(e, LONG).value) && TryTypeCast(e, LONG).value.dataType == LONG
  {
  }

  // An assignment is rejected exactly when it would narrow, and the second check
  // the parser makes changes nothing.
  lemma {:induction false} AssignmentExact(target: DataType, value: Expr)
    requires WellTyped(value)
    ensures CheckAssignmentType(target, value).Error? <==> target == INT && value.dataType == LONG
    ensures CheckAssignmentType(target, value).Ok? ==>
              var v := CheckAssignmentType(target, value).value;
              WellTyped(v) && v.dataType == target && CheckAssignmentType(target, v) == Ok(v)
  {
  }

  //// Meaning ////

  type Vars = map<Slot, int>

  function Get(vars: Vars, slot: Slot): int {
    if slot in vars then vars[slot] else 0
  }

  function Arithmetic(op: BinaryOp, wide: bool, a: int, b: int): Option<int>
    requires IsArithmetic(op)
  {
    match op
    case ADD => Some(Wrap(wide, a + b))
    case SUB => Some(Wrap(wide, a - b))
    case MUL => Some(Wrap(wide, a * b))
    case DIV => if Traps(wide, a, b) then None else Some(Wrap(wide, Quotient(a, b)))
  }

  function Compare(op: BinaryOp, a: int, b: int): bool
    requires IsComparison(op)
  {
    match op
    case EQ => a == b
    case NEQ => a != b
    case GT => a > b
    case LT => a < b
    case GEQ => a >= b
    case LEQ => a <= b
  }

  function Logical(op: BinaryOp, a: int, b: int): bool
    requires IsLogical(op)
  {
    if op == OR then a != 0 || b != 0 else a != 0 && b != 0
  }

  function Truth(b: bool): int { if b then 1 else 0 }

  // One operator on two values. Nothing is returned when a division traps.
  function Apply(op: BinaryOp, wide: bool, a: int, b: int): Option<int> {
    if IsArithmetic(op) then Arithmetic(op, wide, a, b)
    else if IsComparison(op) then Some(Truth(Compare(op, a, b)))
    else Some(Truth(Logical(op, a, b)))
  }

  // Addition, subtraction and multiplication, in both widths: the value of that width that
  // differs from the exact one by a multiple of the range.
  lemma ArithmeticExact(wide: bool, a: int, b: int)
    ensures forall op: BinaryOp :: op.ADD? || op.SUB? || op.MUL? ==>
              var r := Apply(op, wide, a, b);
              r.Some? && (if wide then Is64(r.value) else Is32(r.value))
    ensures (Apply(ADD, wide, a, b).value - (a + b)) % (if wide then TWO64 else TWO32) == 0
    ensures (Apply(SUB, wide, a, b).value - (a - b)) % (if wide then TWO64 else TWO32) == 0
    ensures (Apply(MUL, wide, a, b).value - a * b) % (if wide then TWO64 else TWO32) == 0
  {
    WrapExact(wide, a + b);
    WrapExact(wide, a - b);
    WrapExact(wide, a * b);
    hide Wrap;
  }

  // Comparisons give 1 or 0 by the order of the integers, `and` and `or` by which of them
  // are zero.
  lemma ComparisonExact(wide: bool, a: int, b: int)
    ensures forall op :: !IsArithmetic(op) ==> Apply(op, wide, a, b) == Some(0) || Apply(op, wide, a, b) == Some(1)
    ensures Apply(EQ, wide, a, b) == Some(1) <==> a == b
    ensures Apply(NEQ, wide, a, b) == Some(1) <==> a < b || b < a
    ensures Apply(GT, wide, a, b) == Some(1) <==> b < a
    ensures Apply(LT, wide, a, b) == Some(1) <==> a < b
    ensures Apply(GEQ, wide, a, b) == Some(0) <==> a < b
    ensures Apply(LEQ, wide, a, b) == Some(0) <==> b < a
    ensures Apply(OR, wide, a, b) == Some(0) <==> a == 0 && b == 0
    ensures Apply(AND, wide, a, b) == Some(0) <==> a == 0 || b == 0
  {
  }

  // Dividing traps exactly where C leaves it undefined, and otherwise never wraps: the
  // quotient is cut off towards zero.
  lemma DivisionExact(wide: bool, a: int, b: int)
    requires Is64(a) && (!wide ==> Is32(a))
    ensures Apply(DIV, wide, a, b).None? <==> Traps(wide, a, b)
    ensures Apply(DIV, wide, a, b).Some? ==>
              var r := a - b * Apply(DIV, wide, a, b).value;
              (if a < 0 then -r else r) >= 0 && (if r < 0 then -r else r) < (if b < 0 then -b else b)
  {
    if !Traps(wide, a, b) {
      QuotientFits(wide, a, b);
      QuotientTruncates(a, b);
    }
  }

  // Both operands of every operator are evaluated, those of `and` and `or` too.
  function Eval(e: Expr, vars: Vars): Option<int> {
    match e
    case Id(slot, t) => Some(Wrap(Wide(t), Get(vars, slot)))
    case Number(v, t) => Some(Wrap(Wide(t), v))
    case Binary(op, l, r, t) =>
      (match (Eval(l, vars), Eval(r, vars))
       case (Some(a), Some(b)) => Apply(op, Wide(t), a, b)
       case _ => None)
    case Neg(x, _) =>
      (match Eval(x, vars)
       case Some(a) => Some(Wrap(Wide(x.dataType), -a))
       case None => None)
    case Cast(x, t) =>
      (match Eval(x, vars)
       case Some(a) => Some(if x.dataType == LONG && t == INT then Wrap32(a) else a)
       case None => None)
  }

  //// Cells ////

  // Does the code for e leave two cells? A comparison keeps the type of what it
  // compares and leaves one all the same.
  predicate PushesWide(e: Expr) {
    match e
    case Id(_, t) => Wide(t)
    case Number(_, t) => Wide(t)
    case Binary(op, _, _, t) => IsArithmetic(op) && Wide(t)
    case Neg(x, _) => Wide(x.dataType)
    case Cast(x, t) => if x.dataType == t then PushesWide(x) else Wide(t)
  }

  // Does every instruction of e's code find operands of the width it works on?
  predicate Consistent(e: Expr) {
    match e
    case Id(_, _) => true
    case Number(_, _) => true
    case Binary(op, l, r, t) =>
      Consistent(l) && Consistent(r) &&
      (if IsLogical(op) then !PushesWide(l) && !PushesWide(r)
       else PushesWide(l) == Wide(t) == PushesWide(r))
    case Neg(x, _) => Consistent(x) && PushesWide(x) == Wide(x.dataType)
    case Cast(x, t) => Consistent(x) && (x.dataType != t ==> PushesWide(x) == Wide(x.dataType))
  }

  lemma {:induction false} EvalFits(e: Expr, vars: Vars)
    requires Consistent(e) && Eval(e, vars).Some?
    ensures Is64(Eval(e, vars).value) && (!PushesWide(e) ==> Is32(Eval(e, vars).value))
  {
    match e
    case Id(_, _) =>
    case Number(_, _) =>
    case Binary(op, l, r, t) => EvalFits(l, vars); EvalFits(r, vars);
    case Neg(x, _) => EvalFits(x, vars);
    case Cast(x, t) => EvalFits(x, vars);
  }
}
