// From the functions of a source program to runs of the listing its generator writes
// (compiler/compiler.cpp:82-96).

module Programs {
  import opened Options
  import opened Words
  import opened Types
  import opened Machine
  import opened Code
  import opened Functions
  import opened Labels
  import opened Linking
  import opened Generator
  import opened Scopes
  import opened Naming
  import opened Returns

  //// What Flush is given, and what it leaves ////

  // Functions with a name the scanner accepts and a final return; the system functions
  // have neither. Several may have the same name.
  ghost predicate Generable(fs: seq<Function>) {
    forall f :: f in fs && !IsSystemName(f.name) ==> IsIdentifier(f.name) && EndsInReturn(f.body)
  }

  // Any order of the names that have a buffer.
  ghost predicate Listing(order: seq<string>, fs: seq<Function>) {
    && (forall i, j :: 0 <= i < j < |order| ==> order[i] != order[j])
    && forall name :: name in order <==> name in Translated(fs)
  }

  // Translating all functions and making the first pass of Flush over their buffers gives
  // what running by label asks for.
  lemma FlushedFrom(fs: seq<Function>, order: seq<string>, after: Buffers, counters: seq<nat>)
    requires Generable(fs) && Listing(order, fs)
    requires |counters| == |order| + 1 && Rising(counters)
    requires ResolvedUpTo(Translated(fs), after, order, counters, |order|)
    ensures Flushed(InOrder(Translated(fs), order), order, InOrder(after, order), counters)
  {
    var codes := InOrder(Translated(fs), order);
    hide Translated, Resolving;
    forall k | 0 <= k < |order|
      ensures NamedOnly(codes[k], order[k]) && IsIdentifier(order[k])
      ensures Resolving(codes[k], InOrder(after, order)[k], counters[k], counters[k + 1], |codes[k]|)
    {
      assert order[k] in order;
      BufferIsNamed(fs, order[k]);
      ResolvedOne(Translated(fs), after, order, counters, k);
    }
  }

  lemma BufferIsNamed(fs: seq<Function>, name: string)
    requires Generable(fs) && name in Translated(fs)
    ensures NamedOnly(Translated(fs)[name], name) && IsIdentifier(name)
  {
    BuffersAreNamed(fs, name);
    BufferNames(fs);
    var i :| 0 <= i < |fs| && fs[i].name == name;
    assert fs[i] in fs;
  }

  lemma ResolvedOne(before: Buffers, after: Buffers, order: seq<string>, counters: seq<nat>, k: nat)
    requires ResolvedUpTo(before, after, order, counters, |order|) && k < |order| && |counters| == |order| + 1
    ensures order[k] in before
    ensures Resolving(before[order[k]], InOrder(after, order)[k], counters[k], counters[k + 1], |before[order[k]]|)
  {
    assert Resolving(before[order[k]], after[order[k]], counters[k], counters[k + 1], |after[order[k]]|);
  }

  //// Source programs ////

  // The function list of the compiler: the system functions it starts with, and those
  // parsed and accepted.
  ghost predicate Program(system: seq<Function>, sfs: seq<SFunction>, compiled: seq<Function>) {
    && |sfs| == |compiled|
    && (forall f :: f in system ==> IsSystemName(f.name))
    && (forall i :: 0 <= i < |sfs| ==> ElabFunction(sfs[i]) == Ok(compiled[i]) && IsIdentifier(sfs[i].name))
  }

  lemma ProgramIsGenerable(system: seq<Function>, sfs: seq<SFunction>, compiled: seq<Function>)
    requires Program(system, sfs, compiled)
    ensures Generable(system + compiled)
    ensures forall i :: 0 <= i < |sfs| ==> compiled[i].name == sfs[i].name && !IsSystemName(sfs[i].name)
  {
    hide ElabFunction;
    forall i | 0 <= i < |sfs|
      ensures compiled[i].name == sfs[i].name && IsIdentifier(compiled[i].name) && EndsInReturn(compiled[i].body)
    {
      assert ElabFunction(sfs[i]) == Ok(compiled[i]);
      AcceptedName(sfs[i], compiled[i]);
      AcceptedEndsInReturn(sfs[i], compiled[i]);
    }
  }

  lemma AcceptedName(sf: SFunction, fn: Function)
    requires ElabFunction(sf) == Ok(fn)
    ensures fn.name == sf.name && fn.args == Parameters(sf.params)
  {
    hide ElabAll, DeclareArgs;
  }

  // A call of sf ended as its source does, with the result above what lay below the
  // arguments, in the cells of its type; that is the declared type when every return
  // leaves as many cells.
  ghost predicate Ends(r: Machine.Outcome, sf: SFunction, fn: Function, values: seq<int>, stack: seq<int>)
    requires |values| == |sf.params|
  {
    match Call(sf, values)
    case NTrap => r == Trapped
    case NLeft(Some((u, v))) =>
      r.Returned? && r.stack == stack + Cells(v, Wide(u)) && (AllReturnDeclared(fn.body, sf.ret) ==> sf.ret == Some(u))
    case _ => r.Returned? && r.stack == stack && (AllReturnDeclared(fn.body, sf.ret) ==> sf.ret == None)
  }

  lemma CallEnds(sf: SFunction, fn: Function, values: seq<int>, stack: seq<int>, vars: Vars)
    requires ElabFunction(sf) == Ok(fn) && LiteralsInAll(sf.body) && ConsistentAll(fn.body)
    requires ArgsFit(sf.params, values) && FreshFrame(vars)
    ensures |fn.args| == |values| == |sf.params|
    ensures Ends(Steps(FunctionCode(fn), State(0, stack + ArgCells(fn.args, values), vars), |FunctionCode(fn)|),
                 sf, fn, values, stack)
  {
    hide ElabFunction, Steps, FunctionCode, ConsistentAll, LiteralsInAll, Call, FreshFrame, AllReturnDeclared, Cells;
    CompiledFunctionCorrect(sf, fn, values, stack, vars);
    if AllReturnDeclared(fn.body, sf.ret) { DeclaredResult(sf, fn, values, stack, vars); }
  }

  // Calling a name in the flushed listing is running the code of the first function that
  // has it.
  lemma ListingRuns(fs: seq<Function>, order: seq<string>, after: Buffers, counters: seq<nat>, i: nat,
                    fn: Function, values: seq<int>, stack: seq<int>, vars: Vars)
    requires Generable(fs) && Listing(order, fs)
    requires i < |fs| && FirstOfName(fs, i) && fs[i] == fn && !IsSystemName(fn.name)
    requires |counters| == |order| + 1 && Rising(counters)
    requires ResolvedUpTo(Translated(fs), after, order, counters, |order|)
    requires |fn.args| == |values| && ConsistentAll(fn.body)
    ensures var listing := Flatten(InOrder(after, order));
            var start := FindLabel(listing, fn.name);
            start.Some? &&
            Steps(Linked(listing), State(start.value, stack + ArgCells(fn.args, values), vars), |FunctionCode(fn)|)
            == Steps(FunctionCode(fn), State(0, stack + ArgCells(fn.args, values), vars), |FunctionCode(fn)|)
  {
    FlushedFrom(fs, order, after, counters);
    var k := PlaceInListing(fs, order, i);
    hide Flatten, FindLabel, Linked, Steps, FunctionCode, Flushed, ConsistentAll, Translated;
    hide Listing, Generable, PerformAll, BindArgs, ResolvedUpTo;
    ProgramCorrect(InOrder(Translated(fs), order), order, InOrder(after, order), counters, k, fn, values, stack, vars);
    FunctionCorrect(fn, values, stack, vars);
  }

  lemma PlaceInListing(fs: seq<Function>, order: seq<string>, i: nat) returns (k: nat)
    requires Generable(fs) && Listing(order, fs)
    requires i < |fs| && FirstOfName(fs, i) && !IsSystemName(fs[i].name)
    ensures k < |order| && order[k] == fs[i].name && EndsInReturn(fs[i].body)
    ensures FunctionCode(fs[i]) <= InOrder(Translated(fs), order)[k]
  {
    assert fs[i] in fs;
    hide Translated, FunctionCode;
    CodeIsNotEmpty(fs[i]);
    BufferStartsWith(fs, i);
    assert fs[i].name in order;
    k :| 0 <= k < |order| && order[k] == fs[i].name;
  }

  // How a function is entered: the argument values, what lies below them, the frame.
  datatype Entry = Entry(values: seq<int>, stack: seq<int>, vars: Vars)

  // A call the results below speak of: literals and arguments in range, no operand of
  // another width than its instruction works on, and locals that have not been written.
  ghost predicate Covered(sf: SFunction, fn: Function, e: Entry) {
    LiteralsInAll(sf.body) && ConsistentAll(fn.body) && ArgsFit(sf.params, e.values) && FreshFrame(e.vars)
  }

  // The same for a call by the function's label in a listing.
  ghost predicate Performs(listing: seq<Instruction>, sf: SFunction, fn: Function, e: Entry) {
    var start := FindLabel(listing, sf.name);
    start.Some? && |fn.args| == |e.values| == |sf.params| &&
    var s := State(start.value, e.stack + ArgCells(fn.args, e.values), e.vars);
    Ends(Steps(Linked(listing), s, |FunctionCode(fn)|), sf, fn, e.values, e.stack)
  }

  ghost predicate AlwaysPerforms(listing: seq<Instruction>, sf: SFunction, fn: Function) {
    forall e: Entry :: Covered(sf, fn, e) ==> Performs(listing, sf, fn, e)
  }

  lemma FirstPerforms(fs: seq<Function>, order: seq<string>, after: Buffers, counters: seq<nat>, i: nat,
                      sf: SFunction, fn: Function, e: Entry)
    requires Generable(fs) && Listing(order, fs)
    requires |counters| == |order| + 1 && Rising(counters)
    requires ResolvedUpTo(Translated(fs), after, order, counters, |order|)
    requires i < |fs| && FirstOfName(fs, i) && fs[i] == fn && !IsSystemName(fn.name)
    requires ElabFunction(sf) == Ok(fn) && Covered(sf, fn, e)
    ensures Performs(Flatten(InOrder(after, order)), sf, fn, e)
  {
    AcceptedName(sf, fn);
    hide ElabFunction, Flatten, FindLabel, Linked, Steps, FunctionCode, ConsistentAll, LiteralsInAll;
    hide Listing, Generable, FreshFrame, ResolvedUpTo, Ends, FirstOfName, Rising;
    CallEnds(sf, fn, e.values, e.stack, e.vars);
    ListingRuns(fs, order, after, counters, i, fn, e.values, e.stack, e.vars);
  }

  lemma FirstBehindSystem(system: seq<Function>, sfs: seq<SFunction>, compiled: seq<Function>, i: nat)
    requires Program(system, sfs, compiled) && i < |sfs| && FirstOfName(compiled, i)
    ensures FirstOfName(system + compiled, |system| + i) && (system + compiled)[|system| + i] == compiled[i]
    ensures !IsSystemName(compiled[i].name)
  {
    ProgramIsGenerable(system, sfs, compiled);
    hide ElabFunction;
    var fs := system + compiled;
    forall j | 0 <= j < |system| + i
      ensures fs[j].name != compiled[i].name
    {
      if j < |system| { assert fs[j] in system; } else { assert fs[j] == compiled[j - |system|]; }
    }
  }

  // Every covered call by label performs the first function of that name, whatever its
  // overloads: function i whenever no function before it has its name.
  lemma ProgramPerforms(system: seq<Function>, sfs: seq<SFunction>, compiled: seq<Function>, order: seq<string>,
                        after: Buffers, counters: seq<nat>, i: nat)
    requires Program(system, sfs, compiled) && Listing(order, system + compiled)
    requires |counters| == |order| + 1 && Rising(counters)
    requires ResolvedUpTo(Translated(system + compiled), after, order, counters, |order|)
    requires i < |sfs| && FirstOfName(compiled, i)
    ensures AlwaysPerforms(Flatten(InOrder(after, order)), sfs[i], compiled[i])
  {
    var fs := system + compiled;
    ProgramIsGenerable(system, sfs, compiled);
    assert ElabFunction(sfs[i]) == Ok(compiled[i]);
    FirstBehindSystem(system, sfs, compiled, i);
    hide Program, Listing, Generable, Rising, ResolvedUpTo, Covered, Performs, Flatten, FirstOfName, ElabFunction;
    forall e: Entry | Covered(sfs[i], compiled[i], e)
      ensures Performs(Flatten(InOrder(after, order)), sfs[i], compiled[i], e)
    {
      FirstPerforms(fs, order, after, counters, |system| + i, sfs[i], compiled[i], e);
    }
  }

  // Translating a program's functions and flushing them: every covered call by name
  // performs the source of the first function that has it.
  method Generate(system: seq<Function>, sfs: seq<SFunction>, compiled: seq<Function>, order: seq<string>)
    returns (output: seq<Instruction>)
    requires Program(system, sfs, compiled) && Listing(order, system + compiled)
    ensures forall i :: 0 <= i < |sfs| && FirstOfName(compiled, i) ==> AlwaysPerforms(output, sfs[i], compiled[i])
  {
    hide ElabFunction, AlwaysPerforms, ResolvedUpTo, Rising;
    ProgramIsGenerable(system, sfs, compiled);
    var generator := new StackCodeGenerator();
    generator.TranslateFunctions(system + compiled);
    ghost var counters;
    output, counters := generator.Flush(order);
    forall i | 0 <= i < |sfs| && FirstOfName(compiled, i)
      ensures AlwaysPerforms(output, sfs[i], compiled[i])
    {
      ProgramPerforms(system, sfs, compiled, order, generator.instr, counters, i);
    }
  }

  // Calls with arguments are covered too: `long f(long a) { return a is a; }` with any long.
  lemma ArgumentCovered(v: int, stack: seq<int>)
    requires Is64(v)
    ensures Covered(RETURNED, Function("f", [Parameter(0, LONG)], [ReturnValue(SAME)]), Entry([v], stack, map[]))
  {
    SameElab();
    var s, x := RETURNED.body[0], ReturnValue(SAME);
    assert [s][1..] == [] && [x][1..] == [] && RETURNED.body == [s];
    assert LiteralsIn(s) && LiteralsInAll([]);
  }

  //// Two functions of one name ////

  // int f() { return n; }
  function Constant(n: int): SFunction {
    SFunction("f", [], Some(INT), [SReturnValue(SInt(n))])
  }

  function CompiledConstant(n: int): Function {
    Function("f", [], [ReturnValue(Number(n, INT))])
  }

  lemma ConstantElab(n: int)
    ensures ElabFunction(Constant(n)) == Ok(CompiledConstant(n))
  {
    var f := Front([map[]], 0, 0);
    var s, x := SReturnValue(SInt(n)), ReturnValue(Number(n, INT));
    assert DeclareArgs([]) == Ok(f) && Parameters([]) == [];
    OneStmt(s, f, Some(INT), x, f, [], [], f);
    assert [s] + [] == [s] && [x] + [] == [x];
  }

  lemma ConstantCall(n: int)
    requires Is32(n)
    ensures Call(Constant(n), []) == NLeft(Some((INT, n)))
  {
    assert ArgNames([], []) == [map[]];
    assert DoAll(Constant(n).body, [map[]]) == Do(SReturnValue(SInt(n)), [map[]]);
  }

  lemma ConstantCovered(n: int)
    requires Is32(n)
    ensures Covered(Constant(n), CompiledConstant(n), Entry([], [], map[]))
  {
    var s, x := SReturnValue(SInt(n)), ReturnValue(Number(n, INT));
    assert [s][1..] == [] && [x][1..] == [];
    assert LiteralsIn(s) && LiteralsInAll([]) && Consistent(x.value);
  }

  lemma ConstantCode(n: int)
    ensures |FunctionCode(CompiledConstant(n))| == 2
  {
    var x := ReturnValue(Number(n, INT));
    assert [x][1..] == [] && StmtsCode([x], 0) == StmtCode(x, 0) + [];
    assert PrologueCode([]) == [];
    assert ExprCode(Number(n, INT)) == [Plain(LDI(n))];
    assert StmtCode(x, 0) == [Plain(LDI(n)), Plain(RET)];
  }

  // One name cannot perform both.
  lemma NotBoth(listing: seq<Instruction>, e: Entry)
    requires e == Entry([], [], map[])
    requires Performs(listing, Constant(1), CompiledConstant(1), e)
    ensures !Performs(listing, Constant(2), CompiledConstant(2), e)
  {
    ConstantCall(1);
    ConstantCall(2);
    ConstantCode(1);
    ConstantCode(2);
    hide Call, FunctionCode, Steps, Linked, FindLabel, AllReturnDeclared;
    assert ([] + Cells(1, false))[0] == 1 && ([] + Cells(2, false))[0] == 2;
  }

  // A program of two functions that return 1 and 2 under one name: a call by that name
  // returns 1, and the second function cannot be called.
  lemma SecondIsLost(system: seq<Function>, order: seq<string>, after: Buffers, counters: seq<nat>)
    requires forall f :: f in system ==> IsSystemName(f.name)
    requires Listing(order, system + [CompiledConstant(1), CompiledConstant(2)])
    requires |counters| == |order| + 1 && Rising(counters)
    requires ResolvedUpTo(Translated(system + [CompiledConstant(1), CompiledConstant(2)]), after, order, counters,
                          |order|)
    ensures Program(system, [Constant(1), Constant(2)], [CompiledConstant(1), CompiledConstant(2)])
    ensures !AlwaysPerforms(Flatten(InOrder(after, order)), Constant(2), CompiledConstant(2))
  {
    var sfs, compiled := [Constant(1), Constant(2)], [CompiledConstant(1), CompiledConstant(2)];
    var e, listing := Entry([], [], map[]), Flatten(InOrder(after, order));
    hide Listing, ResolvedUpTo, Rising, Performs, Covered, Flatten, Program, Constant, CompiledConstant, FirstOfName;
    TwoIsAProgram(system);
    ProgramPerforms(system, sfs, compiled, order, after, counters, 0);
    ConstantCovered(1);
    ConstantCovered(2);
    NotBoth(listing, e);
  }

  lemma TwoIsAProgram(system: seq<Function>)
    requires forall f :: f in system ==> IsSystemName(f.name)
    ensures Program(system, [Constant(1), Constant(2)], [CompiledConstant(1), CompiledConstant(2)])
    ensures FirstOfName([CompiledConstant(1), CompiledConstant(2)], 0)
  {
    ConstantElab(1);
    ConstantElab(2);
    hide ElabFunction;
  }
}
