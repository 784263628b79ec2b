// The listing Flush writes, read by label: running it is running the functions
// as they were generated.

module Linking {
  import opened Options
  import opened Words
  import opened Types
  import opened Machine
  import opened Code
  import opened CodeShape
  import opened Functions
  import opened Labels

  function Flatten(fs: seq<seq<Instruction>>): seq<Instruction> {
    if fs == [] then [] else Flatten(fs[..|fs| - 1]) + fs[|fs| - 1]
  }

  function Offset(fs: seq<seq<Instruction>>, k: nat): nat
    requires k <= |fs|
  {
    |Flatten(fs[..k])|
  }

  // The first instruction with this label.
  function FindLabel(listing: seq<Instruction>, name: string): Option<nat> {
    if listing == [] then None
    else
      match FindLabel(listing[..|listing| - 1], name)
      case Some(i) => Some(i)
      case None => if listing[|listing| - 1].labelName == name then Some(|listing| - 1) else None
  }

  // Targets replaced by the places their labels stand at.
  function Linked(listing: seq<Instruction>): (r: seq<Instruction>)
    ensures |r| == |listing|
  {
    seq(|listing|, i requires 0 <= i < |listing| => LinkedInstruction(listing, listing[i]))
  }

  function LinkedInstruction(listing: seq<Instruction>, i: Instruction): Instruction {
    var place := if i.target == "" then -1 else
                   match FindLabel(listing, i.target) case Some(p) => p case None => -1;
    i.(jumpTo := place, jumpAfter := -1)
  }

  lemma {:induction false} FindUnique(listing: seq<Instruction>, p: nat)
    requires p < |listing|
    requires forall q :: 0 <= q < |listing| && q != p ==> listing[q].labelName != listing[p].labelName
    ensures FindLabel(listing, listing[p].labelName) == Some(p)
  {
    var name, n := listing[p].labelName, |listing| - 1;
    if p == n {
      FindNothing(listing[..n], name);
    } else {
      FindUnique(listing[..n], p);
    }
  }

  lemma {:induction false} FindNothing(listing: seq<Instruction>, name: string)
    requires forall q :: 0 <= q < |listing| ==> listing[q].labelName != name
    ensures FindLabel(listing, name) == None
  {
    if listing != [] { FindNothing(listing[..|listing| - 1], name); }
  }

  lemma {:induction false} FlattenAt(fs: seq<seq<Instruction>>, k: nat, i: nat)
    requires k < |fs| && i < |fs[k]|
    ensures Offset(fs, k) + |fs[k]| <= |Flatten(fs)|
    ensures Flatten(fs)[Offset(fs, k) + i] == fs[k][i]
  {
    var n := |fs| - 1;
    if k == n {
      assert fs[..k] == fs[..n];
    } else {
      FlattenAt(fs[..n], k, i);
      assert fs[..n][..k] == fs[..k];
    }
  }

  // Every place of the listing belongs to one instruction of one function.
  lemma {:induction false} FlattenFrom(fs: seq<seq<Instruction>>, p: nat) returns (k: nat, i: nat)
    requires p < |Flatten(fs)|
    ensures k < |fs| && i < |fs[k]| && p == Offset(fs, k) + i
  {
    var n := |fs| - 1;
    if p >= |Flatten(fs[..n])| {
      k, i := n, p - |Flatten(fs[..n])|;
    } else {
      k, i := FlattenFrom(fs[..n], p);
      assert fs[..n][..k] == fs[..k];
    }
  }

  //// Running by label ////

  function Shift(r: Outcome, o: nat): Outcome {
    match r
    case Running(s) => Running(s.(pc := s.pc + o))
    case Halted(s) => Halted(s.(pc := s.pc + o))
    case _ => r
  }

  // `all` holds `code` at o, with every jump of it going to the same instruction.
  predicate Embeds(all: seq<Instruction>, o: nat, code: seq<Instruction>) {
    && o + |code| <= |all|
    && forall i :: 0 <= i < |code| ==>
         all[o + i].op == code[i].op
         && (IsJump(code[i]) ==> Refers(code, i) && JumpTarget(all[o + i]) == o + JumpTarget(code[i]))
  }

  lemma {:induction false} EmbeddedRuns(all: seq<Instruction>, o: nat, code: seq<Instruction>, s: State, n: nat)
    requires Embeds(all, o, code) && !Steps(code, s, n).Halted?
    ensures Steps(all, s.(pc := s.pc + o), n) == Shift(Steps(code, s, n), o)
    decreases n
  {
    hide Step;
    if s.pc < |code| && n > 0 {
      EmbeddedStep(all, o, code, s);
      match Step(code, s)
      case Running(s') => EmbeddedRuns(all, o, code, s', n - 1);
      case _ =>
    }
  }

  lemma EmbeddedStep(all: seq<Instruction>, o: nat, code: seq<Instruction>, s: State)
    requires Embeds(all, o, code) && s.pc < |code|
    ensures Step(all, s.(pc := s.pc + o)) == Shift(Step(code, s), o)
  {
    hide Apply, Pop, Cells, Wrap, JumpTarget;
    assert all[o + s.pc].op == code[s.pc].op;
  }

  //// The listing of a whole program ////

  // The buffers `codes` of the functions `names`, after the first pass of Flush.
  ghost predicate Flushed(codes: seq<seq<Instruction>>, names: seq<string>, resolved: seq<seq<Instruction>>,
                    counters: seq<nat>) {
    && |codes| == |names| == |resolved| && |counters| == |codes| + 1
    && (forall i, j :: 0 <= i < j < |counters| ==> counters[i] <= counters[j])
    && (forall i, j :: 0 <= i < j < |names| ==> names[i] != names[j])
    && (forall k :: 0 <= k < |codes| ==>
          NamedOnly(codes[k], names[k]) && IsIdentifier(names[k])
          && Resolving(codes[k], resolved[k], counters[k], counters[k + 1], |codes[k]|))
  }

  // Labels are distinct across the whole program.
  lemma LabelsDistinct(codes: seq<seq<Instruction>>, names: seq<string>, resolved: seq<seq<Instruction>>,
                    counters: seq<nat>,
                       k: nat, i: nat, l: nat, j: nat)
    requires Flushed(codes, names, resolved, counters)
    requires k < |codes| && l < |codes| && i < |resolved[k]| && j < |resolved[l]| && (k != l || i != j)
    requires resolved[k][i].labelName != ""
    ensures resolved[k][i].labelName != resolved[l][j].labelName
  {
    hide Resolving, NamedOnly, IsIdentifier;
    SameLength(codes[k], resolved[k], counters[k], counters[k + 1]);
    SameLength(codes[l], resolved[l], counters[l], counters[l + 1]);
    if resolved[l][j].labelName == "" {
    } else if k == l {
      var a, b := if i < j then i else j, if i < j then j else i;
      LabelsApartInFunction(codes[k], resolved[k], counters[k], counters[k + 1], names[k], a, b);
    } else if k < l {
      assert k + 1 <= l;
      LabelsApart(codes[k], resolved[k], counters[k], counters[k + 1], names[k],
                  codes[l], resolved[l], counters[l], counters[l + 1], names[l], i, j);
    } else {
      assert l + 1 <= k;
      LabelsApart(codes[l], resolved[l], counters[l], counters[l + 1], names[l],
                  codes[k], resolved[k], counters[k], counters[k + 1], names[k], j, i);
    }
  }

  lemma SameLength(code: seq<Instruction>, code': seq<Instruction>, n0: nat, n1: nat)
    requires Resolving(code, code', n0, n1, |code|)
    ensures |code'| == |code|
  {
  }

  // A label found in the listing is found at the one instruction that has it.
  lemma FoundAt(codes: seq<seq<Instruction>>, names: seq<string>, resolved: seq<seq<Instruction>>,
                counters: seq<nat>, k: nat, i: nat)
    requires Flushed(codes, names, resolved, counters)
    requires k < |codes| && i < |resolved[k]| && resolved[k][i].labelName != ""
    ensures FindLabel(Flatten(resolved), resolved[k][i].labelName) == Some(Offset(resolved, k) + i)
  {
    Lengths(codes, names, resolved, counters);
    hide Flushed, FindLabel;
    var listing := Flatten(resolved);
    var p := Offset(resolved, k) + i;
    FlattenAt(resolved, k, i);
    forall q | 0 <= q < |listing| && q != p ensures listing[q].labelName != listing[p].labelName {
      var l, j := FlattenFrom(resolved, q);
      FlattenAt(resolved, l, j);
      LabelsDistinct(codes, names, resolved, counters, k, i, l, j);
    }
    FindUnique(listing, p);
  }

  lemma Lengths(codes: seq<seq<Instruction>>, names: seq<string>, resolved: seq<seq<Instruction>>, counters: seq<nat>)
    requires Flushed(codes, names, resolved, counters)
    ensures |resolved| == |codes| && |counters| == |codes| + 1
  {
  }

  // Every jump refers to an instruction of its own function.
  predicate Complete(code: seq<Instruction>) {
    forall i :: 0 <= i < |code| && IsJump(code[i]) ==> Refers(code, i)
  }

  // One instruction of function k, in its buffer and in the listing.
  lemma LinkedAt(codes: seq<seq<Instruction>>, names: seq<string>, resolved: seq<seq<Instruction>>, counters: seq<nat>,
                 k: nat, i: nat)
    requires Flushed(codes, names, resolved, counters) && k < |codes| && i < |codes[k]|
    ensures |resolved[k]| == |codes[k]| && Kept(codes[k][i], resolved[k][i], counters[k], counters[k + 1])
    ensures Refers(codes[k], i) ==>
              resolved[k][JumpTarget(codes[k][i])].labelName != ""
              && resolved[k][i].target == resolved[k][JumpTarget(codes[k][i])].labelName
  {
    hide NamedOnly, IsIdentifier, Kept;
    assert Resolving(codes[k], resolved[k], counters[k], counters[k + 1], |codes[k]|);
  }

  // `part` starts the buffer of function k, and its jumps stay within it.
  lemma LinkedEmbeds(codes: seq<seq<Instruction>>, names: seq<string>, resolved: seq<seq<Instruction>>,
                     counters: seq<nat>, k: nat, part: seq<Instruction>)
    requires Flushed(codes, names, resolved, counters) && k < |codes| && part <= codes[k] && Complete(part)
    ensures Embeds(Linked(Flatten(resolved)), Offset(resolved, k), part)
  {
    LinkedFits(codes, names, resolved, counters, k, part);
    hide Flushed, FindLabel, Flatten, Linked, Offset, JumpTarget;
    forall i | 0 <= i < |part|
      ensures Linked(Flatten(resolved))[Offset(resolved, k) + i].op == part[i].op
      ensures IsJump(part[i]) ==>
                Refers(part, i)
                && JumpTarget(Linked(Flatten(resolved))[Offset(resolved, k) + i])
                   == Offset(resolved, k) + JumpTarget(part[i])
    {
      LinkedOne(codes, names, resolved, counters, k, part, i);
    }
  }

  lemma LinkedFits(codes: seq<seq<Instruction>>, names: seq<string>, resolved: seq<seq<Instruction>>,
                   counters: seq<nat>, k: nat, part: seq<Instruction>)
    requires Flushed(codes, names, resolved, counters) && k < |codes| && part <= codes[k]
    ensures |resolved| == |codes| && Offset(resolved, k) + |part| <= |Linked(Flatten(resolved))|
  {
    Lengths(codes, names, resolved, counters);
    hide Flushed, FindLabel, Flatten;
    if part == [] {
      OffsetInside(resolved, k);
    } else {
      LinkedAt(codes, names, resolved, counters, k, 0);
      FlattenAt(resolved, k, 0);
    }
  }

  lemma LinkedOne(codes: seq<seq<Instruction>>, names: seq<string>, resolved: seq<seq<Instruction>>,
                  counters: seq<nat>, k: nat, part: seq<Instruction>, i: nat)
    requires Flushed(codes, names, resolved, counters) && k < |codes| && part <= codes[k] && Complete(part)
    requires i < |part|
    ensures |resolved| == |codes| && Offset(resolved, k) + i < |Flatten(resolved)|
    ensures var all := Linked(Flatten(resolved));
            var o := Offset(resolved, k);
            all[o + i].op == part[i].op
            && (IsJump(part[i]) ==> Refers(part, i) && JumpTarget(all[o + i]) == o + JumpTarget(part[i]))
  {
    Lengths(codes, names, resolved, counters);
    hide Flushed, FindLabel, Flatten;
    assert part[i] == codes[k][i];
    LinkedAt(codes, names, resolved, counters, k, i);
    FlattenAt(resolved, k, i);
    if IsJump(part[i]) {
      assert Refers(part, i);
      FoundAt(codes, names, resolved, counters, k, JumpTarget(part[i]));
    }
  }

  lemma {:induction false} OffsetInside(fs: seq<seq<Instruction>>, k: nat)
    requires k <= |fs|
    ensures Offset(fs, k) <= |Flatten(fs)|
  {
    if k < |fs| {
      OffsetInside(fs[..|fs| - 1], k);
      assert fs[..|fs| - 1][..k] == fs[..k];
    } else {
      assert fs[..k] == fs;
    }
  }

  lemma FunctionIsComplete(f: Function)
    requires EndsInReturn(f.body)
    ensures Complete(FunctionCode(f)) && NamedOnly(FunctionCode(f), f.name)
  {
    forall i | 0 <= i < |FunctionCode(f)|
      ensures IsJump(FunctionCode(f)[i]) ==> Refers(FunctionCode(f), i)
      ensures FunctionCode(f)[i].labelName == (if i == 0 then f.name else "")
    {
      JumpsInRange(f, i);
    }
  }

  // Flushing and running by label performs the function a buffer starts with: from the
  // place its label stands at, with its arguments on the stack.
  lemma ProgramCorrect(codes: seq<seq<Instruction>>, names: seq<string>, resolved: seq<seq<Instruction>>,
                       counters: seq<nat>, k: nat, f: Function, values: seq<int>, stack: seq<int>, vars: Vars)
    requires Flushed(codes, names, resolved, counters)
    requires k < |codes| && FunctionCode(f) <= codes[k] && names[k] == f.name
    requires EndsInReturn(f.body) && ConsistentAll(f.body) && |values| == |f.args|
    ensures var listing := Flatten(resolved);
            var start := FindLabel(listing, f.name);
            start.Some? &&
            Steps(Linked(listing), State(start.value, stack + ArgCells(f.args, values), vars), |FunctionCode(f)|)
            == match PerformAll(f.body, BindArgs(f.args, values, vars))
               case Left(cells, vars') => Returned(stack + cells, vars')
               case _ => Trapped
  {
    hide FindLabel, Linked, Flatten, FunctionCode, Steps, PerformAll, ConsistentAll, Resolving;
    var s := State(0, stack + ArgCells(f.args, values), vars);
    FunctionIsComplete(f);
    LinkedEmbeds(codes, names, resolved, counters, k, FunctionCode(f));
    FunctionCorrect(f, values, stack, vars);
    EmbeddedRuns(Linked(Flatten(resolved)), Offset(resolved, k), FunctionCode(f), s, |FunctionCode(f)|);
    CodeIsNotEmpty(f);
    EntryLabel(codes[k], resolved[k], names[k], counters[k], counters[k + 1]);
    FoundAt(codes, names, resolved, counters, k, 0);
  }

  lemma CodeIsNotEmpty(f: Function)
    requires EndsInReturn(f.body)
    ensures |FunctionCode(f)| > 0
  {
    var front, back := BodyLayout(f);
  }

  lemma EntryLabel(code: seq<Instruction>, code': seq<Instruction>, name: string, n0: nat, n1: nat)
    requires Resolving(code, code', n0, n1, |code|) && NamedOnly(code, name) && IsIdentifier(name) && |code| > 0
    ensures |code'| > 0 && code'[0].labelName == name
  {
    assert Kept(code[0], code'[0], n0, n1);
  }

  //// Functions of one name ////

  // The code of a function carries no label before its buffer is named.
  lemma BodyHasNoLabels(f: Function, base: nat)
    ensures forall i :: 0 <= i < |BodyAt(f, base)| ==> BodyAt(f, base)[i].labelName == ""
  {
    PrologueHasNoJumps(f.args);
    StmtsJumps(f.body, base + |PrologueCode(f.args)|);
  }

  // However many functions share a buffer, only its first instruction has a label.
  lemma {:induction false} BuffersAreNamed(fs: seq<Function>, name: string)
    requires name in Translated(fs)
    ensures NamedOnly(Translated(fs)[name], name)
  {
    var n := |fs| - 1;
    var f := fs[n];
    if f.name == name && !IsSystemName(name) {
      var b := Buffer(Translated(fs[..n]), name);
      if name in Translated(fs[..n]) { BuffersAreNamed(fs[..n], name); }
      BodyHasNoLabels(f, |b|);
    } else {
      BuffersAreNamed(fs[..n], name);
    }
  }

  // Running the buffer of a name performs the first function of that name, and never
  // reaches the code of another.
  lemma FirstOfNameRuns(fs: seq<Function>, i: nat, values: seq<int>, stack: seq<int>, vars: Vars)
    requires i < |fs| && FirstOfName(fs, i) && !IsSystemName(fs[i].name)
    requires EndsInReturn(fs[i].body) && ConsistentAll(fs[i].body) && |values| == |fs[i].args|
    ensures fs[i].name in Translated(fs)
    ensures var f := fs[i];
            Steps(Translated(fs)[f.name], State(0, stack + ArgCells(f.args, values), vars), |FunctionCode(f)|)
            == match PerformAll(f.body, BindArgs(f.args, values, vars))
               case Left(cells, vars') => Returned(stack + cells, vars')
               case _ => Trapped
  {
    var f := fs[i];
    CodeIsNotEmpty(f);
    BufferStartsWith(fs, i);
    hide FunctionCode, PerformAll, ConsistentAll, Translated;
    var code, all := FunctionCode(f), Translated(fs)[f.name];
    FunctionIsComplete(f);
    FunctionCorrect(f, values, stack, vars);
    forall x | 0 <= x < |code|
      ensures all[x].op == code[x].op
      ensures IsJump(code[x]) ==> Refers(code, x) && JumpTarget(all[x]) == JumpTarget(code[x])
    {
      assert all[x] == code[x];
    }
    var s := State(0, stack + ArgCells(f.args, values), vars);
    EmbeddedRuns(all, 0, code, s, |code|);
    assert s.(pc := s.pc + 0) == s;
  }
}
