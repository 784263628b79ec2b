// The assembler's objects: the label dictionary and the two loops over the program,
// proved against the passes of Layout.

module Assembler {
  import opened Options
  import opened Words
  import opened Decimal
  import opened Encoding
  import opened StackSet
  import opened Layout

  // Resolving a label only counts the reference.
  ghost predicate SameAddresses(a: Dictionary, b: Dictionary) {
    a.Keys == b.Keys && forall name :: name in a ==> a[name].address == b[name].address
  }

  lemma SameBytes(a: Dictionary, b: Dictionary, body: Body)
    requires SameAddresses(a, b)
    ensures BytesOf(a, body) == BytesOf(b, body) && UndefinedLabel(a, body) == UndefinedLabel(b, body)
  {
    hide InstructionBytes, AddressBits;
  }

  ghost predicate AnyUndefined(labels: Dictionary, working: seq<Body>) {
    exists b :: b in working && UndefinedLabel(labels, b)
  }

  class LabelDictionary {
    var labels: Dictionary

    constructor ()
      ensures labels == Predefined()
    {
      labels := map[];
      new;
      var i := 0;
      while i < 32
        invariant 0 <= i <= 32 && labels == Registers(i)
      {
        labels := labels["R" + Digits(i) := Label(i, 0)];
        i := i + 1;
      }
      labels := labels + SystemFunctions();
    }

    method RegisterLabel(name: string, value: nat) returns (registered: bool)
      modifies this
      ensures registered == (name !in old(labels))
      ensures labels == if registered then old(labels)[name := Label(value, 0)] else old(labels)
    {
      if name in labels {
        return false;
      }
      labels := labels[name := Label(value, 0)];
      return true;
    }

    method ResolveLabel(name: string) returns (address: Option<nat>)
      modifies this
      ensures address == if name in old(labels) then Some(old(labels)[name].address) else None
      ensures SameAddresses(labels, old(labels))
      ensures name in labels ==> labels[name].refCount == old(labels)[name].refCount + 1
      ensures forall other :: other in labels && other != name ==> labels[other] == old(labels)[other]
    {
      if name !in labels {
        return None;
      }
      var lbl := labels[name];
      labels := labels[name := lbl.(refCount := lbl.refCount + 1)];
      return Some(lbl.address);
    }
  }

  class Assembler {
    const labelDict: LabelDictionary
    const heap: bv32
    const heapMax: bv32
    var hasError: bool
    var instrAddr: nat
    var workingText: seq<Body>
    var dataStart: nat
    var output: Bytes

    constructor (heap: bv32, heapMax: bv32)
      ensures fresh(labelDict) && labelDict.labels == Predefined()
      ensures this.heap == heap && this.heapMax == heapMax
    {
      labelDict := new LabelDictionary();
      this.heap, this.heapMax := heap, heapMax;
      hasError, instrAddr, workingText, dataStart, output := false, 0, [], TWO32 - 1, [];
    }

    ghost function FirstPass(): Pass
      reads this, labelDict
    {
      Pass(instrAddr, labelDict.labels, workingText, dataStart, hasError)
    }

    method FirstPassReadLine(line: Line)
      modifies this, labelDict
      ensures FirstPass() == ReadLine(old(FirstPass()), line)
      ensures output == old(output)
    {
      hide Predefined, SizeOf, Forward, WrongArguments;
      if line.labelName.Some? {
        var registered := labelDict.RegisterLabel(line.labelName.value, instrAddr);
        if !registered {
          hasError := true;
          return;
        }
      }
      match line.body
      case Empty =>
      case Ins(_, _) =>
        if WrongArguments(line.body) {
          hasError := true;
        } else {
          workingText := workingText + [line.body];
          instrAddr := Forward(instrAddr, SizeOf(line.body));
        }
      case Data(_, _) =>
        workingText := workingText + [line.body];
        instrAddr := Forward(instrAddr, SizeOf(line.body));
      case DataStart =>
        dataStart := instrAddr;
    }

    method EvaluateArgument(argument: Option<Argument>) returns (value: bv64)
      requires argument.Some? && argument.value.Name? ==> ReadsAsLabel(argument.value.labelName)
      modifies this`hasError, labelDict
      ensures value == ArgumentValue(old(labelDict.labels), argument)
      ensures SameAddresses(labelDict.labels, old(labelDict.labels))
      ensures hasError == (old(hasError) || UndefinedLabel(old(labelDict.labels), Ins(0, argument)))
    {
      match argument
      case None =>
        return 0;
      case Some(Number(v)) =>
        return v;
      case Some(Name(name)) =>
        var lblAddress := labelDict.ResolveLabel(name);
        if lblAddress == None {
          hasError := true;
          return 0;
        }
        return AddressBits(lblAddress.value);
    }

    method AssembleLine(line: Body)
      requires Known(Line(None, line)) && (line.Ins? || line.Data?)
      modifies this`hasError, this`instrAddr, this`output, labelDict
      ensures output == old(output) + BytesOf(old(labelDict.labels), line)
      ensures SameAddresses(labelDict.labels, old(labelDict.labels))
      ensures hasError == (old(hasError) || UndefinedLabel(old(labelDict.labels), line))
      ensures instrAddr == Forward(old(instrAddr), if line.Ins? then SizeOf(line) else 0)
    {
      match line
      case Ins(opcode, argument) =>
        var value := EvaluateArgument(argument);
        output := output + InstructionBytes(opcode, value);
        instrAddr := Forward(instrAddr, ByteSize(opcode));
      case Data(size, text) =>
        output := output + (text + [0])[..size];
        instrAddr := Forward(instrAddr, 0);
    }

    // The second loop: every entry of the working text in order.
    method SecondPass(ghost labels: Dictionary)
      requires AllEmitted(workingText) && SameAddresses(labelDict.labels, labels) && instrAddr == 0
      modifies this`hasError, this`instrAddr, this`output, labelDict
      ensures output == old(output) + Image(labels, workingText)
      ensures hasError == (old(hasError) || AnyUndefined(labels, workingText))
      ensures instrAddr == Counted(workingText)
    {
      hide BytesOf, UndefinedLabel, Known, SameAddresses, AnyUndefined, Image, Counted;
      ghost var before, failed := output, hasError;
      var i := 0;
      NothingYet(labels);
      while i < |workingText|
        invariant 0 <= i <= |workingText|
        invariant output == before + Image(labels, workingText[..i])
        invariant SameAddresses(labelDict.labels, labels)
        invariant hasError == (failed || AnyUndefined(labels, workingText[..i]))
        invariant instrAddr == Counted(workingText[..i])
      {
        ghost var current := labelDict.labels;
        OneMoreLine(labels, workingText, i);
        SameBytes(current, labels, workingText[i]);
        AssembleLine(workingText[i]);
        StillSame(labelDict.labels, current, labels);
        i := i + 1;
      }
      assert workingText[..i] == workingText;
    }

    // Both passes. The result counts instruction bytes only, and is 0 after an error.
    method Assemble(lines: seq<Line>) returns (count: nat)
      requires AllKnown(lines) && labelDict.labels == Predefined() && workingText == [] && output == []
      requires dataStart == TWO32 - 1
      modifies this, labelDict
      ensures var end := ReadLines(lines);
              && output == Header(heap, heapMax, end.dataStart % TWO32) + Image(end.labels, end.working)
              && hasError == (end.hasError || AnyUndefined(end.labels, end.working))
              && count == if hasError then 0 else Counted(end.working)
    {
      hide Predefined, ReadLine, Known;
      hasError, instrAddr := false, 0;
      var i := 0;
      while i < |lines|
        invariant 0 <= i <= |lines| && output == []
        invariant FirstPass() == ReadLines(lines[..i])
      {
        assert lines[..i + 1][..i] == lines[..i];
        FirstPassReadLine(lines[i]);
        i := i + 1;
      }
      assert lines[..i] == lines;
      AddressIsSize(lines);
      output := Header(heap, heapMax, dataStart % TWO32);
      instrAddr := 0;
      SecondPass(labelDict.labels);
      return if hasError then 0 else instrAddr;
    }
  }

  lemma NothingYet(labels: Dictionary)
    ensures Image(labels, []) == [] && Counted([]) == 0 && !AnyUndefined(labels, [])
  {
  }

  lemma OneMoreLine(labels: Dictionary, working: seq<Body>, i: nat)
    requires i < |working| && AllEmitted(working)
    ensures Image(labels, working[..i + 1]) == Image(labels, working[..i]) + BytesOf(labels, working[i])
    ensures Counted(working[..i + 1])
         == Forward(Counted(working[..i]), if working[i].Ins? then SizeOf(working[i]) else 0)
    ensures AnyUndefined(labels, working[..i + 1]) <==>
            AnyUndefined(labels, working[..i]) || UndefinedLabel(labels, working[i])
    ensures Known(Line(None, working[i])) && (working[i].Ins? || working[i].Data?)
  {
    hide BytesOf, UndefinedLabel, Known, Forward;
    assert working[..i + 1][..i] == working[..i];
    assert working[i] in working[..i + 1];
    assert forall b :: b in working[..i + 1] <==> b in working[..i] || b == working[i];
  }

  lemma StillSame(a: Dictionary, b: Dictionary, c: Dictionary)
    requires SameAddresses(a, b) && SameAddresses(b, c)
    ensures SameAddresses(a, c)
  {
  }

  //// When assembling fails ////

  predicate HasName(lines: seq<Line>, name: string) {
    name in Predefined() || exists j :: 0 <= j < |lines| && lines[j].labelName == Some(name)
  }

  // Line k refers to a name that is neither predefined nor the label of any line.
  predicate RefersToNothing(lines: seq<Line>, k: nat)
    requires k < |lines|
  {
    match lines[k].body
    case Ins(_, Some(Name(name))) => !HasName(lines, name)
    case _ => false
  }

  // Without errors in the first pass, every instruction and every string is in the text.
  lemma {:induction false} EveryLineIsRead(lines: seq<Line>, b: Body)
    requires !ReadLines(lines).hasError
    ensures b in ReadLines(lines).working <==>
              (b.Ins? || b.Data?) && exists k :: 0 <= k < |lines| && lines[k].body == b
    decreases |lines|
  {
    hide Predefined, SizeOf, Forward;
    if lines != [] {
      var n := |lines| - 1;
      OneLine(ReadLines(lines[..n]), lines[n]);
      EveryLineIsRead(lines[..n], b);
      if k :| 0 <= k < n && lines[k].body == b { assert lines[..n][k].body == b; }
      if k :| 0 <= k < n && lines[..n][k].body == b { assert lines[k].body == b; }
    }
  }

  // Assembling fails exactly when a line repeats a label or has the wrong number of
  // arguments, or refers to a name that nothing defines.
  lemma FailsExact(lines: seq<Line>)
    ensures var end := ReadLines(lines);
            end.hasError || AnyUndefined(end.labels, end.working)
            <==> exists k :: 0 <= k < |lines| && (BadLine(lines, k) || RefersToNothing(lines, k))
  {
    var end := ReadLines(lines);
    ErrorsExact(lines);
    hide ReadLines, Predefined, BadLine;
    if !end.hasError {
      if AnyUndefined(end.labels, end.working) {
        var b :| b in end.working && UndefinedLabel(end.labels, b);
        EveryLineIsRead(lines, b);
        var k :| 0 <= k < |lines| && lines[k].body == b;
        DefinedNames(lines, b.argument.value.labelName);
        assert RefersToNothing(lines, k);
      }
      if k :| 0 <= k < |lines| && RefersToNothing(lines, k) {
        var b := lines[k].body;
        EveryLineIsRead(lines, b);
        DefinedNames(lines, b.argument.value.labelName);
        assert UndefinedLabel(end.labels, b);
      }
    }
  }
}
