// The code generator as it works: one buffer of instructions per function,
// appended to and patched in place (compiler/code_generator.cpp).

module Generator {
  import opened Types
  import opened Machine
  import opened Code
  import opened Functions
  import opened Labels
  import opened Linking

  lemma CodeOfOneMore(ss: seq<Stmt>, k: nat, base: nat)
    requires k < |ss|
    ensures StmtsCode(ss[..k + 1], base)
         == StmtsCode(ss[..k], base) + StmtCode(ss[k], base + |StmtsCode(ss[..k], base)|)
  {
    var b := base + |StmtsCode(ss[..k], base)|;
    assert ss[..k + 1] == ss[..k] + [ss[k]];
    CodeOfTwo(ss[..k], [ss[k]], base);
    assert [ss[k]][1..] == [] && StmtsCode([], b + |StmtCode(ss[k], b)|) == [];
    assert StmtsCode([ss[k]], b) == StmtCode(ss[k], b) + [];
  }

  lemma PrologueOfOneMore(args: seq<Parameter>, k: nat)
    requires 0 < k <= |args|
    ensures var a := args[k - 1];
            PrologueCode(args[..k]) == [Plain(ST(ArgVar(a.position), Wide(a.dataType)))] + PrologueCode(args[..k - 1])
  {
    assert args[..k][..k - 1] == args[..k - 1];
  }

  // What the code of an expression is, by its kind.
  lemma LeafCodeIs(e: Expr)
    ensures e.Id? ==> ExprCode(e) == [Plain(LD(e.slot, Wide(e.dataType)))]
    ensures e.Number? ==> ExprCode(e) == [Plain(if e.dataType == INT then LDI(e.value) else LDI_64(e.value))]
  {
  }

  lemma UnaryCodeIs(e: Expr)
    ensures e.Neg? ==> ExprCode(e) == ExprCode(e.operand) + [Plain(NEG(Wide(e.operand.dataType)))]
    ensures e.Cast? && e.operand.dataType != e.dataType ==>
              ExprCode(e) == ExprCode(e.operand) + [Plain(if e.dataType == LONG then ITOL else LTOI)]
    ensures e.Cast? && e.operand.dataType == e.dataType ==> ExprCode(e) == ExprCode(e.operand)
  {
    if e.Cast? && e.operand.dataType == e.dataType { assert ExprCode(e) == ExprCode(e.operand); }
  }

  lemma BinaryCodeIs(op: BinaryOp, l: Expr, r: Expr, t: DataType)
    ensures ExprCode(Binary(op, l, r, t)) == ExprCode(l) + ExprCode(r) + [Plain(BinaryCode(op, t))]
  {
  }

  class StackCodeGenerator {
    var instr: Buffers       // m_instr
    var currFunc: string
    var lastInstr: int       // index of the last instruction added to the current function
    var nextLabel: nat

    constructor ()
      ensures instr == map[] && nextLabel == 0
    {
      instr, currFunc, lastInstr, nextLabel := map[], "", 0, 0;
    }

    // The current function's buffer.
    function Code(): seq<Instruction>
      reads this
    {
      Buffer(instr, currFunc)
    }

    // `part` was appended to the current buffer and nothing else happened.
    twostate predicate Appended(part: seq<Instruction>)
      reads this
    {
      && currFunc in instr && currFunc == old(currFunc) && nextLabel == old(nextLabel)
      && instr == old(instr)[currFunc := old(Code()) + part]
      && lastInstr == if part == [] then old(lastInstr) else |Code()| - 1
    }

    method AddInstruction(op: Op) returns (index: nat)
      requires currFunc in instr
      modifies this
      ensures Appended([Plain(op)]) && index == lastInstr
    {
      instr := instr[currFunc := instr[currFunc] + [Plain(op)]];
      lastInstr := |instr[currFunc]| - 1;
      index := lastInstr;
    }

    method TranslateExpression(e: Expr)
      requires currFunc in instr
      modifies this
      ensures Appended(ExprCode(e))
      decreases e, 0
    {
      hide ExprCode, BinaryCode;
      LeafCodeIs(e);
      UnaryCodeIs(e);
      match e
      case Id(slot, t) => var k := AddInstruction(LD(slot, Wide(t)));
      case Number(v, t) =>
        var k := AddInstruction(if t == INT then LDI(v) else LDI_64(v));
      case Binary(op, l, r, t) =>
        ghost var start, before := Code(), instr;
        TranslateExpression(l);
        ExpressionThen(r, BinaryCode(op, t));
        BinaryCodeIs(op, l, r, t);
        assert Code() == start + ExprCode(e);
        assert instr == before[currFunc := Code()];
      case Neg(x, _) => ExpressionThen(x, NEG(Wide(x.dataType)));
      case Cast(x, t) =>
        if x.dataType == t {
          TranslateExpression(x);
        } else {
          ExpressionThen(x, if t == LONG then ITOL else LTOI);
        }
    }

    // Sets `jumpAfter` of an instruction already in the buffer.
    method Patch(index: nat, jumpAfter: int)
      requires currFunc in instr && index < |instr[currFunc]|
      modifies this`instr
      ensures currFunc in instr
      ensures instr == old(instr)[currFunc := old(Code())[index := old(Code())[index].(jumpAfter := jumpAfter)]]
    {
      var b := instr[currFunc];
      instr := instr[currFunc := b[index := b[index].(jumpAfter := jumpAfter)]];
    }

    method TranslateStatement(s: Stmt)
      requires currFunc in instr
      modifies this
      ensures Appended(StmtCode(s, |old(Code())|))
      decreases s, 1
    {
      hide ExprCode;
      match s
      case Decl(_, _) => assert Code() + [] == Code();
      case Init(slot, t, e) => ExpressionThen(e, ST(slot, Wide(t)));
      case Assign(slot, t, e) => ExpressionThen(e, ST(slot, Wide(t)));
      case Block(ss) => TranslateStatements(ss);
      case If(_, _) => TranslateIf(s);
      case IfElse(_, _, _) => TranslateIfElse(s);
      case Return => var k := AddInstruction(RET);
      case ReturnValue(e) => ExpressionThen(e, RET);
    }

    // An expression and the instruction that uses its value.
    method ExpressionThen(e: Expr, op: Op)
      requires currFunc in instr
      modifies this
      ensures Appended(ExprCode(e) + [Plain(op)])
      decreases e, 1
    {
      hide ExprCode;
      ghost var start := Code();
      TranslateExpression(e);
      var k := AddInstruction(op);
      assert Code() == start + (ExprCode(e) + [Plain(op)]);
    }

    // How stmt_branch begins with or without an else statement: the condition, the
    // branch that will be patched, the statements under it.
    method TranslateBranch(c: Expr, thn: seq<Stmt>) returns (condBranchInstr: nat)
      requires currFunc in instr
      modifies this
      ensures condBranchInstr == |old(Code())| + |ExprCode(c)|
      ensures Appended(ExprCode(c) + [Plain(BRZ)] + StmtsCode(thn, condBranchInstr + 1))
      decreases thn, 1
    {
      hide ExprCode, StmtsCode;
      ghost var start := Code();
      TranslateExpression(c);
      condBranchInstr := AddInstruction(BRZ);
      TranslateStatements(thn);
      ghost var t := StmtsCode(thn, condBranchInstr + 1);
      assert Code() == start + (ExprCode(c) + [Plain(BRZ)] + t);
    }

    method TranslateIf(s: Stmt)
      requires currFunc in instr && s.If?
      modifies this
      ensures Appended(StmtCode(s, |old(Code())|))
      decreases s, 0
    {
      hide ExprCode, StmtsCode;
      ghost var start := Code();
      var condBranchInstr := TranslateBranch(s.cond, s.thn);
      Patch(condBranchInstr, lastInstr);
      ghost var t := StmtsCode(s.thn, condBranchInstr + 1);
      assert Code() == start + (ExprCode(s.cond) + [Branch(BRZ, condBranchInstr + |t|)] + t);
    }

    method TranslateIfElse(s: Stmt)
      requires currFunc in instr && s.IfElse?
      modifies this
      ensures Appended(StmtCode(s, |old(Code())|))
      decreases s, 0
    {
      hide ExprCode, StmtsCode;
      ghost var start, before, c := Code(), instr, ExprCode(s.cond);
      var condBranchInstr := TranslateBranch(s.cond, s.thn);
      ghost var t := StmtsCode(s.thn, condBranchInstr + 1);
      var jumpToEnd := AddInstruction(JMP);
      Patch(condBranchInstr, lastInstr);
      assert instr == before[currFunc := Code()];
      ghost var f := StmtsCode(s.els, jumpToEnd + 1);
      TranslateStatements(s.els);
      Patch(jumpToEnd, lastInstr);
      assert instr == before[currFunc := Code()];
      Patched(start, c, t, f);
    }

    method TranslateStatements(ss: seq<Stmt>)
      requires currFunc in instr
      modifies this
      ensures Appended(StmtsCode(ss, |old(Code())|))
      decreases ss, 0
    {
      ghost var start, before := Code(), instr;
      var k := 0;
      assert ss[..0] == [] && start + [] == start;
      while k < |ss|
        invariant 0 <= k <= |ss|
        invariant currFunc in instr && currFunc == old(currFunc) && nextLabel == old(nextLabel)
        invariant instr == before[currFunc := start + StmtsCode(ss[..k], |start|)]
        invariant lastInstr == if StmtsCode(ss[..k], |start|) == [] then old(lastInstr) else |Code()| - 1
      {
        CodeOfOneMore(ss, k, |start|);
        hide StmtsCode, StmtCode;
        TranslateStatement(ss[k]);
        assert Code() == start + StmtsCode(ss[..k + 1], |start|);
        k := k + 1;
      }
      assert ss[..k] == ss;
    }

    // The values of the arguments are consumed from the stack, in reversed order.
    method TranslateArguments(args: seq<Parameter>)
      requires currFunc in instr
      modifies this
      ensures Appended(PrologueCode(args))
    {
      ghost var start, before := Code(), instr;
      var k := |args|;
      ghost var done: seq<Instruction> := [];
      assert args[..k] == args && start + done == start;
      while k > 0
        invariant 0 <= k <= |args|
        invariant currFunc in instr && currFunc == old(currFunc) && nextLabel == old(nextLabel)
        invariant instr == before[currFunc := start + done]
        invariant PrologueCode(args) == done + PrologueCode(args[..k])
        invariant lastInstr == if done == [] then old(lastInstr) else |Code()| - 1
      {
        hide PrologueCode;
        var a := args[k - 1];
        PrologueOfOneMore(args, k);
        var i := AddInstruction(ST(ArgVar(a.position), Wide(a.dataType)));
        assert Code() == start + (done + [Plain(ST(ArgVar(a.position), Wide(a.dataType)))]);
        done := done + [Plain(ST(ArgVar(a.position), Wide(a.dataType)))];
        k := k - 1;
      }
      assert PrologueCode(args[..0]) == [] && done + [] == done;
    }

    method TranslateFunctions(fs: seq<Function>)
      requires instr == map[]
      requires forall f :: f in fs && !IsSystemName(f.name) ==> EndsInReturn(f.body)
      modifies this
      ensures instr == Translated(fs) && nextLabel == old(nextLabel)
    {
      var k := 0;
      assert fs[..0] == [];
      while k < |fs|
        invariant 0 <= k <= |fs|
        invariant instr == Translated(fs[..k]) && nextLabel == old(nextLabel)
      {
        assert fs[..k + 1][..k] == fs[..k];
        assert fs[k] in fs;
        if !IsSystemName(fs[k].name) {
          TranslateFunction(fs[k]);
        }
        k := k + 1;
      }
      assert fs[..k] == fs;
    }

    method TranslateFunction(f: Function)
      requires EndsInReturn(f.body) && !IsSystemName(f.name)
      modifies this
      ensures instr == WithFunction(old(instr), f) && nextLabel == old(nextLabel)
    {
      hide StmtsCode, PrologueCode;
      ghost var before := Buffer(instr, f.name);
      currFunc := f.name;
      if f.name !in instr {
        instr := instr[f.name := []];
      }
      TranslateArguments(f.args);
      TranslateStatements(f.body);
      assert instr[currFunc] == before + BodyAt(f, |before|);
      var b := instr[currFunc];
      BodyIsNotEmpty(f, |before|);
      instr := instr[currFunc := b[0 := b[0].(labelName := currFunc)]];
    }

    //// Flush ////

    method CreateLabel() returns (name: string)
      modifies this`nextLabel
      ensures name == LabelText(old(nextLabel)) && nextLabel == old(nextLabel) + 1
    {
      name := LabelText(nextLabel);
      nextLabel := nextLabel + 1;
    }

    // Makes sure instruction k of a buffer has a label.
    method EnsureLabel(name: string, k: nat)
      requires name in instr && k < |instr[name]|
      modifies this`instr, this`nextLabel
      ensures old(instr[name])[k].labelName != "" ==> instr == old(instr) && nextLabel == old(nextLabel)
      ensures old(instr[name])[k].labelName == "" ==>
                nextLabel == old(nextLabel) + 1
                && instr == old(instr)[name := WithLabel(old(instr[name]), k, LabelText(old(nextLabel)))]
    {
      if instr[name][k].labelName == "" {
        var l := CreateLabel();
        instr := instr[name := WithLabel(instr[name], k, l)];
      }
    }

    // The first pass over one instruction of a function.
    method ResolveInstruction(name: string, i: nat, ghost code: seq<Instruction>, ghost n0: nat)
      requires name in instr && i < |code|
      requires Resolving(code, instr[name], n0, nextLabel, i) && |instr[name]| == |code|
      requires JumpTarget(instr[name][i]) == JumpTarget(code[i])
      modifies this`instr, this`nextLabel
      ensures instr.Keys == old(instr).Keys
      ensures forall f :: f in instr && f != name ==> instr[f] == old(instr)[f]
      ensures Resolving(code, instr[name], n0, nextLabel, i + 1)
    {
      hide Resolving, WithLabel, WithTarget;
      ghost var code1, n1 := instr[name], nextLabel;
      var target := JumpTarget(instr[name][i]);
      if -1 < target < |instr[name]| {
        LabelledAt(code1, target, LabelText(n1));
        if code1[target].labelName == "" { NewLabel(code, code1, n0, n1, i, target); }
        EnsureLabel(name, target);
        LabelTextIsNotEmpty(n1);
        NewTarget(code, instr[name], n0, nextLabel, i, target);
        instr := instr[name := WithTarget(instr[name], i, target)];
      } else {
        NoTarget(code, instr[name], n0, nextLabel, i);
      }
    }

    // The first pass over one function.
    method ResolveFunction(name: string)
      requires name in instr
      modifies this`instr, this`nextLabel
      ensures instr.Keys == old(instr).Keys
      ensures forall f :: f in instr && f != name ==> instr[f] == old(instr)[f]
      ensures Resolving(old(instr[name]), instr[name], old(nextLabel), nextLabel, |old(instr[name])|)
    {
      ghost var code, n0 := instr[name], nextLabel;
      var i := 0;
      while i < |instr[name]|
        invariant instr.Keys == old(instr).Keys
        invariant forall f :: f in instr && f != name ==> instr[f] == old(instr)[f]
        invariant 0 <= i <= |code| && Resolving(code, instr[name], n0, nextLabel, i)
        decreases |code| - i
      {
        assert Kept(code[i], instr[name][i], n0, nextLabel);
        ResolveInstruction(name, i, code, n0);
        i := i + 1;
      }
    }

    // The first pass over all functions, in the order the map keeps them.
    method ResolveLabels(order: seq<string>) returns (ghost counters: seq<nat>)
      requires forall i :: 0 <= i < |order| ==> order[i] in instr
      requires forall i, j :: 0 <= i < j < |order| ==> order[i] != order[j]
      modifies this`instr, this`nextLabel
      ensures instr.Keys == old(instr).Keys && |counters| == |order| + 1 && Rising(counters)
      ensures ResolvedUpTo(old(instr), instr, order, counters, |order|)
    {
      hide Resolving, Rising, ResolvedUpTo;
      var k := 0;
      counters := [nextLabel];
      NothingResolved(instr, order, nextLabel);
      while k < |order|
        invariant 0 <= k <= |order| && |counters| == k + 1 && counters[k] == nextLabel
        invariant instr.Keys == old(instr).Keys && Rising(counters)
        invariant ResolvedUpTo(old(instr), instr, order, counters, k)
      {
        ghost var before, n := instr, nextLabel;
        ResolveFunction(order[k]);
        CounterGrows(before[order[k]], instr[order[k]], n, nextLabel, |before[order[k]]|);
        MoreResolved(old(instr), before, instr, order, counters, k, nextLabel);
        counters := counters + [nextLabel];
        k := k + 1;
      }
    }

    // Both passes: labels first, then every function written out in order.
    method Flush(order: seq<string>) returns (output: seq<Instruction>, ghost counters: seq<nat>)
      requires forall i :: 0 <= i < |order| ==> order[i] in instr
      requires forall i, j :: 0 <= i < j < |order| ==> order[i] != order[j]
      modifies this`instr, this`nextLabel
      ensures instr.Keys == old(instr).Keys && |counters| == |order| + 1 && Rising(counters)
      ensures ResolvedUpTo(old(instr), instr, order, counters, |order|)
      ensures output == Flatten(InOrder(instr, order))
    {
      hide Resolving, Rising, ResolvedUpTo;
      counters := ResolveLabels(order);
      ghost var all := InOrder(instr, order);
      var k := 0;
      output := [];
      while k < |order|
        invariant 0 <= k <= |order| && output == Flatten(all[..k])
      {
        assert all[..k + 1][..k] == all[..k] && all[k] == instr[order[k]];
        output := output + instr[order[k]];
        k := k + 1;
      }
      assert all[..k] == all;
    }
  }

  // The buffer after both branches of an if-else have been patched.
  lemma Patched(start: seq<Instruction>, c: seq<Instruction>, t: seq<Instruction>, f: seq<Instruction>)
    ensures var i, j := |start| + |c|, |start| + |c| + 1 + |t|;
            var branched := (start + (c + [Plain(BRZ)] + t) + [Plain(JMP)])[i := Branch(BRZ, j)];
            (branched + f)[j := Branch(JMP, j + |f|)]
            == start + (c + [Branch(BRZ, j)] + t + [Branch(JMP, j + |f|)] + f)
  {
  }

  predicate Rising(counters: seq<nat>) {
    forall i, j :: 0 <= i < j < |counters| ==> counters[i] <= counters[j]
  }

  // The first k functions have been through the first pass, each between two values of
  // the label counter; the rest are as they were.
  ghost predicate ResolvedUpTo(before: Buffers, after: Buffers, order: seq<string>, counters: seq<nat>, k: nat) {
    && k <= |order| && k < |counters| && after.Keys == before.Keys
    && (forall i :: 0 <= i < |order| ==> order[i] in before)
    && (forall i :: k <= i < |order| ==> after[order[i]] == before[order[i]])
    && forall i :: 0 <= i < k ==>
         Resolving(before[order[i]], after[order[i]], counters[i], counters[i + 1], |after[order[i]]|)
  }

  lemma NothingResolved(before: Buffers, order: seq<string>, n: nat)
    requires forall i :: 0 <= i < |order| ==> order[i] in before
    ensures Rising([n]) && ResolvedUpTo(before, before, order, [n], 0)
  {
  }

  lemma MoreResolved(before: Buffers, between: Buffers, after: Buffers, order: seq<string>, counters: seq<nat>, k: nat,
                     n: nat)
    requires ResolvedUpTo(before, between, order, counters, k) && k < |order| && |counters| == k + 1
    requires forall i, j :: 0 <= i < j < |order| ==> order[i] != order[j]
    requires after.Keys == between.Keys && forall f :: f in between && f != order[k] ==> after[f] == between[f]
    requires Resolving(between[order[k]], after[order[k]], counters[k], n, |after[order[k]]|)
    requires Rising(counters) && counters[k] <= n
    ensures Rising(counters + [n]) && ResolvedUpTo(before, after, order, counters + [n], k + 1)
  {
    hide Resolving;
    forall i | 0 <= i < k
      ensures after[order[i]] == between[order[i]]
    {
      assert order[i] != order[k];
    }
  }

  lemma LabelledAt(code: seq<Instruction>, k: nat, name: string)
    requires k < |code|
    ensures |WithLabel(code, k, name)| == |code| && WithLabel(code, k, name)[k].labelName == name
  {
  }

  lemma LabelTextIsNotEmpty(n: nat)
    ensures LabelText(n) != ""
  {
  }

  lemma CounterGrows(code: seq<Instruction>, code': seq<Instruction>, n0: nat, n1: nat, done: nat)
    requires Resolving(code, code', n0, n1, done)
    ensures n0 <= n1 && |code'| == |code|
  {
  }

  lemma BodyIsNotEmpty(f: Function, base: nat)
    requires EndsInReturn(f.body)
    ensures BodyAt(f, base) != []
  {
    var init, last := f.body[..|f.body| - 1], f.body[|f.body| - 1];
    var b := base + |PrologueCode(f.args)|;
    assert init + [last] == f.body;
    CodeOfTwo(init, [last], b);
  }
}
