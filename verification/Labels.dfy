// Label names and what the first pass of Flush does with them
// (compiler/code_generator.cpp:226-294).

module Labels {
  import opened Decimal
  import opened Machine

  //// Names ////

  function LabelText(n: nat): string { "_L" + Digits(n) }

  lemma LabelTextInjective(a: nat, b: nat)
    requires LabelText(a) == LabelText(b)
    ensures a == b
  {
    assert LabelText(a)[2..] == Digits(a) && LabelText(b)[2..] == Digits(b);
    DigitsInjective(a, b);
  }

  // A label that Flush made while its counter went from n0 to n1.
  ghost predicate Generated(name: string, n0: nat, n1: nat) {
    exists k: nat :: n0 <= k < n1 && name == LabelText(k)
  }

  //// Resolution ////

  // Does instruction i refer to another instruction of its function?
  predicate Refers(code: seq<Instruction>, i: nat)
    requires i < |code|
  {
    -1 < JumpTarget(code[i]) < |code|
  }

  // The buffer after the pass has dealt with its first `done` instructions.
  ghost predicate Resolving(code: seq<Instruction>, code': seq<Instruction>, n0: nat, n1: nat, done: nat) {
    && |code'| == |code| && n0 <= n1
    && (forall i :: 0 <= i < |code| ==> Kept(code[i], code'[i], n0, n1))
    && (forall i :: 0 <= i < done && i < |code| && Refers(code, i) ==>
          code'[JumpTarget(code[i])].labelName != "" && code'[i].target == code'[JumpTarget(code[i])].labelName)
    && (forall i :: 0 <= i < |code| && (i >= done || !Refers(code, i)) ==> code'[i].target == code[i].target)
    && (forall i, j :: 0 <= i < |code| && 0 <= j < |code| && i != j ==>
          code[i].labelName == "" ==> code'[i].labelName != "" ==> code[j].labelName == "" ==>
          code'[i].labelName != code'[j].labelName)
  }

  // Only the label and the target of an instruction change, and only a missing label.
  ghost predicate Kept(i: Instruction, i': Instruction, n0: nat, n1: nat) {
    && i'.op == i.op && i'.jumpTo == i.jumpTo && i'.jumpAfter == i.jumpAfter
    && (i'.labelName == i.labelName || (i.labelName == "" && Generated(i'.labelName, n0, n1)))
  }

  function WithLabel(code: seq<Instruction>, k: nat, name: string): seq<Instruction>
    requires k < |code|
  {
    code[k := code[k].(labelName := name)]
  }

  // Instruction `i` refers to the labelled instruction k.
  function WithTarget(code: seq<Instruction>, i: nat, k: nat): seq<Instruction>
    requires i < |code| && k < |code|
  {
    code[i := code[i].(target := code[k].labelName)]
  }

  lemma NewLabel(code: seq<Instruction>, code': seq<Instruction>, n0: nat, n1: nat, done: nat, k: nat)
    requires Resolving(code, code', n0, n1, done) && k < |code| && code'[k].labelName == ""
    ensures Resolving(code, WithLabel(code', k, LabelText(n1)), n0, n1 + 1, done)
  {
    var code2 := WithLabel(code', k, LabelText(n1));
    forall i | 0 <= i < |code| ensures Kept(code[i], code2[i], n0, n1 + 1) {
      if code'[i].labelName != code[i].labelName {
        var x: nat :| n0 <= x < n1 && code'[i].labelName == LabelText(x);
      }
    }
    forall j | 0 <= j < |code| && j != k && code[j].labelName == "" ensures code'[j].labelName != LabelText(n1) {
      if code'[j].labelName != "" {
        assert Kept(code[j], code'[j], n0, n1);
        var x: nat :| n0 <= x < n1 && code'[j].labelName == LabelText(x);
        if LabelText(x) == LabelText(n1) { LabelTextInjective(x, n1); }
      }
    }
  }

  lemma NewTarget(code: seq<Instruction>, code': seq<Instruction>, n0: nat, n1: nat, done: nat, k: nat)
    requires Resolving(code, code', n0, n1, done) && done < |code|
    requires Refers(code, done) && JumpTarget(code[done]) == k && code'[k].labelName != ""
    ensures Resolving(code, WithTarget(code', done, k), n0, n1, done + 1)
  {
    var code2 := WithTarget(code', done, k);
    forall i | 0 <= i < |code| ensures Kept(code[i], code2[i], n0, n1) {
      assert Kept(code[i], code'[i], n0, n1);
    }
  }

  lemma NoTarget(code: seq<Instruction>, code': seq<Instruction>, n0: nat, n1: nat, done: nat)
    requires Resolving(code, code', n0, n1, done) && done < |code| && !Refers(code, done)
    ensures Resolving(code, code', n0, n1, done + 1)
  {
  }

  //// Labels tell every instruction apart ////

  // What the code of one function carries before Flush: its name up front.
  predicate NamedOnly(code: seq<Instruction>, name: string) {
    forall i :: 0 <= i < |code| ==> code[i].labelName == (if i == 0 then name else "")
  }

  // The scanner accepts no identifier that starts with an underscore.
  predicate IsIdentifier(name: string) { name != "" && name[0] != '_' }

  lemma GeneratedIsNoIdentifier(name: string, n0: nat, n1: nat)
    requires Generated(name, n0, n1)
    ensures !IsIdentifier(name)
  {
    var k: nat :| n0 <= k < n1 && name == LabelText(k);
    assert name[0] == '_';
  }

  lemma GeneratedApart(a: string, b: string, n0: nat, n1: nat, n2: nat, n3: nat)
    requires Generated(a, n0, n1) && Generated(b, n2, n3) && n1 <= n2
    ensures a != b
  {
    var x: nat :| n0 <= x < n1 && a == LabelText(x);
    var y: nat :| n2 <= y < n3 && b == LabelText(y);
    if a == b { LabelTextInjective(x, y); }
  }

  // In one resolved function no two instructions have the same label.
  lemma LabelsApartInFunction(code: seq<Instruction>, code': seq<Instruction>, n0: nat, n1: nat, name: string,
                    i: nat, j: nat)
    requires Resolving(code, code', n0, n1, |code|) && NamedOnly(code, name) && IsIdentifier(name)
    requires i < j < |code| && code'[i].labelName != ""
    ensures code'[i].labelName != code'[j].labelName
  {
    assert Kept(code[i], code'[i], n0, n1) && Kept(code[j], code'[j], n0, n1);
    if i == 0 && code'[j].labelName != "" {
      GeneratedIsNoIdentifier(code'[j].labelName, n0, n1);
    }
  }

  // Nor do instructions of two functions with different names.
  lemma LabelsApart(a: seq<Instruction>, a': seq<Instruction>, n0: nat, n1: nat, f: string,
                    b: seq<Instruction>, b': seq<Instruction>, n2: nat, n3: nat, g: string, i: nat, j: nat)
    requires Resolving(a, a', n0, n1, |a|) && NamedOnly(a, f) && IsIdentifier(f)
    requires Resolving(b, b', n2, n3, |b|) && NamedOnly(b, g) && IsIdentifier(g)
    requires f != g && n1 <= n2 && i < |a| && j < |b| && a'[i].labelName != ""
    ensures a'[i].labelName != b'[j].labelName
  {
    assert Kept(a[i], a'[i], n0, n1) && Kept(b[j], b'[j], n2, n3);
    if i > 0 { GeneratedIsNoIdentifier(a'[i].labelName, n0, n1); }
    if j > 0 && b'[j].labelName != "" { GeneratedIsNoIdentifier(b'[j].labelName, n2, n3); }
    if i > 0 && j > 0 && b'[j].labelName != "" {
      GeneratedApart(a'[i].labelName, b'[j].labelName, n0, n1, n2, n3);
    }
  }
}
