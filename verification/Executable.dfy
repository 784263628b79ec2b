// From a source text to a running machine: what the assembler writes is, once loaded, a
// program that the simulation theorem speaks about.

module Executable {
  import opened Options
  import opened Words
  import opened Decimal
  import opened Encoding
  import opened StackSet
  import opened Layout
  import opened LabelMachine
  import opened Simulation
  import Vm

  // Instructions, then the .DATA marker, then strings; labels anywhere.
  predicate CodeThenData(lines: seq<Line>, at: nat) {
    && at < |lines| && lines[at].body == DataStart
    && (forall k :: 0 <= k < at ==> lines[k].body.Empty? || lines[k].body.Ins?)
    && (forall k :: at < k < |lines| ==> lines[k].body.Empty? || lines[k].body.Data?)
  }

  // ReadProgram: a header of four words, then the program.
  function ReadProgram(file: Bytes, beyond: nat -> bv8): Option<Vm.Program> {
    if |file| < 16 then None else Some(Vm.Program(file[16..], beyond, Read32(file, 12) as nat))
  }

  lemma HeaderReads(heap: bv32, heapMax: bv32, dataStart: nat, image: Bytes, beyond: nat -> bv8)
    requires dataStart < TWO32
    ensures ReadProgram(Header(heap, heapMax, dataStart) + image, beyond)
            == Some(Vm.Program(image, beyond, dataStart))
    ensures var file := Header(heap, heapMax, dataStart) + image;
            Read32(file, 0) == 1 && Read32(file, 4) == heap && Read32(file, 8) == heapMax
  {
    HeaderWords(heap, heapMax, dataStart, image);
    hide Byte0, Byte1, Byte2, Byte3, Join32;
    var file := Header(heap, heapMax, dataStart) + image;
    Shifted0(Word(dataStart));
    assert file[12..16] == WordBytes(Word(dataStart));
    assert file[16..] == image;
    assert file[12] == file[12..16][0] && file[13] == file[12..16][1] && file[14] == file[12..16][2]
           && file[15] == file[12..16][3];
  }

  // The mode, and the two heap sizes where the loader looks for them.
  lemma HeaderWords(heap: bv32, heapMax: bv32, dataStart: nat, image: Bytes)
    requires dataStart < TWO32
    ensures var file := Header(heap, heapMax, dataStart) + image;
            Read32(file, 0) == 1 && Read32(file, 4) == heap && Read32(file, 8) == heapMax
  {
    hide Byte0, Byte1, Byte2, Byte3, Join32;
    var file := Header(heap, heapMax, dataStart) + image;
    Shifted0(1);
    Shifted0(heap);
    Shifted0(heapMax);
    assert file[0..4] == WordBytes(1) && file[4..8] == WordBytes(heap) && file[8..12] == WordBytes(heapMax);
    WordReads(file, 0, 1);
    WordReads(file, 4, heap);
    WordReads(file, 8, heapMax);
  }

  lemma WordReads(file: Bytes, at: nat, w: bv32)
    requires at + 4 <= |file| && file[at..at + 4] == WordBytes(w)
    ensures Read32(file, at) == w
  {
    hide Byte0, Byte1, Byte2, Byte3, Join32;
    Shifted0(w);
    assert file[at] == file[at..at + 4][0] && file[at + 1] == file[at..at + 4][1]
           && file[at + 2] == file[at..at + 4][2] && file[at + 3] == file[at..at + 4][3];
  }

  //// The working text ////

  lemma ErrorFreePrefix(lines: seq<Line>, k: nat)
    requires k < |lines| && !ReadLines(lines[..k + 1]).hasError
    ensures !ReadLines(lines[..k]).hasError
    ensures ReadLines(lines[..k + 1]) == ReadLine(ReadLines(lines[..k]), lines[k])
    ensures CodeOf(lines[..k + 1]) == CodeOf(lines[..k]) + (if lines[k].body.Ins? then [lines[k].body] else [])
  {
    hide Predefined, ReadLine;
    assert lines[..k + 1][..k] == lines[..k];
    OneLine(ReadLines(lines[..k]), lines[k]);
  }

  lemma {:induction false} CodeIsRead(lines: seq<Line>, at: nat, k: nat)
    requires CodeThenData(lines, at) && k <= at && !ReadLines(lines[..k]).hasError
    ensures ReadLines(lines[..k]).working == CodeOf(lines[..k])
  {
    hide Predefined;
    if k > 0 {
      ErrorFreePrefix(lines, k - 1);
      CodeIsRead(lines, at, k - 1);
    }
  }

  lemma {:induction false} DataIsRead(lines: seq<Line>, at: nat, k: nat)
    requires CodeThenData(lines, at) && AllKnown(lines) && at < k <= |lines| && !ReadLines(lines[..k]).hasError
    ensures CodeOf(lines[..k]) == CodeOf(lines[..at]) <= ReadLines(lines[..k]).working
    ensures ReadLines(lines[..k]).dataStart == Sizes(CodeOf(lines[..at])) % TWO32
    decreases k
  {
    hide Predefined, CodeOf, Sizes, Known, ReadLines;
    ErrorFreePrefix(lines, k - 1);
    if k == at + 1 {
      CodeIsRead(lines, at, at);
      AddressIsSize(lines[..at]);
    } else {
      DataIsRead(lines, at, k - 1);
    }
  }

  //// Labels ////

  lemma {:induction false} PositionIsDefined(lines: seq<Line>, name: string) returns (k: nat)
    requires name in PositionsOf(lines)
    ensures k < |lines| && lines[k].labelName == Some(name)
    ensures PositionsOf(lines)[name] == |CodeOf(lines[..k])|
    decreases |lines|
  {
    var n := |lines| - 1;
    if lines[n].labelName == Some(name) {
      k := n;
    } else {
      k := PositionIsDefined(lines[..n], name);
      assert lines[..n][..k] == lines[..k];
    }
  }

  lemma {:induction false} SizesSplit(a: seq<Body>, b: seq<Body>)
    ensures Sizes(a + b) == Sizes(a) + Sizes(b)
    decreases |b|
  {
    if b == [] {
      assert a + b == a;
    } else {
      var n := |b| - 1;
      assert (a + b)[..|a + b| - 1] == a + b[..n];
      SizesSplit(a, b[..n]);
    }
  }

  lemma {:induction false} CodeGrows(lines: seq<Line>, k: nat)
    requires k <= |lines|
    ensures CodeOf(lines[..k]) <= CodeOf(lines)
    decreases |lines|
  {
    if k == |lines| {
      assert lines[..k] == lines;
    } else {
      var n := |lines| - 1;
      CodeGrows(lines[..n], k);
      assert lines[..n][..k] == lines[..k];
    }
  }

  // Text that ends inside the code, or behind it.
  lemma PlaceOf(code: seq<Body>, before: seq<Body>, position: nat)
    requires position <= |code| && (before == code[..position] || (code <= before && position == |code|))
    ensures SamePlace(code, position, Sizes(before))
  {
    if position == |code| {
      assert code[..position] == code;
      assert before == code + before[|code|..];
      SizesSplit(code, before[|code|..]);
    }
  }

  lemma AddressBefore(lines: seq<Line>, k: nat)
    requires AllKnown(lines) && k < |lines| && lines[k].labelName.Some? && !ReadLines(lines).hasError
    requires Sizes(ReadLines(lines).working) < TWO32
    ensures var name := lines[k].labelName.value;
            name in ReadLines(lines).labels
            && ReadLines(lines).labels[name].address == Sizes(Before(lines, k).working)
    ensures !Before(lines, k).hasError
  {
    hide Predefined, ReadLines, Image, Sizes, Known;
    var end, before := ReadLines(lines), Before(lines, k);
    LayoutAgrees(lines, k, map[]);
    LinesOnlyAdd(lines, k);
    AddressIsSize(lines[..k]);
    ImageSize(map[], before.working);
    assert end.working == before.working + end.working[|before.working|..];
    SizesSplit(before.working, end.working[|before.working|..]);
  }

  // A label's address and its position are the same place.
  lemma LabelPlace(lines: seq<Line>, at: nat, name: string)
    requires CodeThenData(lines, at) && AllKnown(lines) && !ReadLines(lines).hasError
    requires Sizes(ReadLines(lines).working) < TWO32 && name in PositionsOf(lines)
    ensures name in ReadLines(lines).labels
    ensures SamePlace(CodeOf(lines), PositionsOf(lines)[name], ReadLines(lines).labels[name].address)
  {
    hide Predefined, ReadLines, CodeOf, PositionsOf, Known, SamePlace, Sizes;
    var k := PositionIsDefined(lines, name);
    var before, code := Before(lines, k).working, CodeOf(lines);
    AddressBefore(lines, k);
    CodeGrows(lines, k);
    assert lines[..|lines|] == lines;
    DataIsRead(lines, at, |lines|);
    if k <= at {
      CodeIsRead(lines, at, k);
    } else {
      DataIsRead(lines, at, k);
    }
    PlaceOf(code, before, |CodeOf(lines[..k])|);
  }

  //// Bytes ////

  lemma ImageHolds(labels: Dictionary, working: seq<Body>, i: nat)
    requires AllEmitted(working) && i < |working|
    ensures var at, bytes := Sizes(working[..i]), BytesOf(labels, working[i]);
            at + |bytes| <= |Image(labels, working)| && Image(labels, working)[at..at + |bytes|] == bytes
  {
    hide BytesOf;
    assert working[..i + 1][..i] == working[..i];
    ImagePrefix(labels, working, i + 1);
    ImageSize(labels, working[..i]);
    var image, front := Image(labels, working), Image(labels, working[..i]);
    var bytes := BytesOf(labels, working[i]);
    assert Image(labels, working[..i + 1]) == front + bytes;
    assert image[..|front| + |bytes|] == front + bytes;
    assert image[|front|..|front| + |bytes|] == image[..|front| + |bytes|][|front|..];
  }

  // The bytes of a string: its text, then a terminator if there is room for one.
  lemma DataHolds(labels: Dictionary, working: seq<Body>, i: nat, k: nat)
    requires AllEmitted(working) && i < |working| && working[i].Data? && k < working[i].size
    ensures var at, text := Sizes(working[..i]), working[i].text;
            at + k < |Image(labels, working)|
            && Image(labels, working)[at + k] == if k < |text| then text[k] else 0
  {
    hide Image, Sizes, BytesOf, AllEmitted, Known;
    EmittedIsKnown(working, i);
    ImageHolds(labels, working, i);
    TextBytes(labels, working[i], k);
    var at, bytes, image := Sizes(working[..i]), BytesOf(labels, working[i]), Image(labels, working);
    assert image[at..at + |bytes|][k] == image[at + k];
  }

  lemma EmittedIsKnown(working: seq<Body>, i: nat)
    requires AllEmitted(working) && i < |working|
    ensures Known(Line(None, working[i]))
  {
    hide Known;
  }

  lemma TextBytes(labels: Dictionary, b: Body, k: nat)
    requires b.Data? && Known(Line(None, b)) && k < b.size
    ensures |BytesOf(labels, b)| == b.size && BytesOf(labels, b)[k] == if k < |b.text| then b.text[k] else 0
  {
  }

  // The loaded file has the text of every labelled string at its label's address.
  lemma LabelledData(lines: seq<Line>, i: nat, k: nat, heap: bv32, heapMax: bv32, beyond: nat -> bv8)
    requires AllKnown(lines) && !ReadLines(lines).hasError && Sizes(ReadLines(lines).working) < TWO32
    requires i < |lines| && lines[i].labelName.Some? && lines[i].body.Data? && k < lines[i].body.size
    ensures var end := ReadLines(lines);
            var file := Header(heap, heapMax, end.dataStart % TWO32) + Image(end.labels, end.working);
            var name, text := lines[i].labelName.value, lines[i].body.text;
            && ReadProgram(file, beyond).Some? && name in end.labels
            && var at := end.labels[name].address + k;
               at < |ReadProgram(file, beyond).value.memory|
               && ReadProgram(file, beyond).value.memory[at] == if k < |text| then text[k] else 0
  {
    hide ReadLines, Image, Sizes, Header, ReadProgram, Known, Predefined;
    var end, before := ReadLines(lines), Before(lines, i).working;
    AddressBefore(lines, i);
    DataIsAppended(lines, i);
    AddressIsSize(lines);
    assert end.working[..|before|] == before;
    DataHolds(end.labels, end.working, |before|, k);
    HeaderReads(heap, heapMax, end.dataStart % TWO32, Image(end.labels, end.working), beyond);
  }

  lemma DataIsAppended(lines: seq<Line>, i: nat)
    requires !ReadLines(lines).hasError && i < |lines| && lines[i].body.Data?
    ensures var before, working := Before(lines, i).working, ReadLines(lines).working;
            before <= working && |before| < |working| && working[|before|] == lines[i].body
  {
    assert lines[..i + 1][..i] == lines[..i];
    assert Before(lines, i + 1) == ReadLine(Before(lines, i), lines[i]);
    LinesOnlyAdd(lines, i);
    LinesOnlyAdd(lines, i + 1);
    hide ReadLines, Predefined, SizeOf, Forward;
  }

  lemma AddressSurvives(a: nat)
    requires a < TWO32
    ensures Low32(AddressBits(a)) as int == a
  {
    hide Low32, Widen;
    LowOfWide(Word(a));
  }

  lemma LowOfWide(w: bv32)
    ensures Low32(Widen(w)) == w
  {
  }

  // Predefined names keep their values, so constants evaluate to themselves.
  lemma ConstantsKept(lines: seq<Line>, argument: Option<Argument>)
    requires Constant(argument).Some?
    ensures ArgumentValue(ReadLines(lines).labels, argument) == Constant(argument).value
  {
    hide Predefined, AddressBits;
    LinesOnlyAdd(lines, 0);
    assert lines[..0] == [];
  }

  function OperandBits(labels: Dictionary, code: seq<Body>): (bits: seq<bv64>)
    requires forall b :: b in code ==> b.Ins?
    ensures |bits| == |code|
  {
    seq(|code|, i requires 0 <= i < |code| => ArgumentValue(labels, code[i].argument))
  }

  // A jump's operand is the address of the place its label stands at.
  lemma TargetHolds(lines: seq<Line>, at: nat, argument: Option<Argument>)
    requires CodeThenData(lines, at) && AllKnown(lines) && !ReadLines(lines).hasError
    requires Sizes(ReadLines(lines).working) < TWO32 && Target(ProgramOf(lines), argument).Some?
    ensures SamePlace(CodeOf(lines), Target(ProgramOf(lines), argument).value,
                      Low32(ArgumentValue(ReadLines(lines).labels, argument)) as int)
  {
    hide Predefined, ReadLines, CodeOf, PositionsOf, SamePlace, AddressBits, Sizes, Low32;
    var name := argument.value.labelName;
    LabelPlace(lines, at, name);
    AddressIsSmall(lines, name);
    AddressSurvives(ReadLines(lines).labels[name].address);
  }

  lemma InstructionHolds(lines: seq<Line>, at: nat, p: Vm.Program, i: nat)
    requires CodeThenData(lines, at) && AllKnown(lines) && !ReadLines(lines).hasError
    requires Sizes(ReadLines(lines).working) < TWO32
    requires p.memory == Image(ReadLines(lines).labels, ReadLines(lines).working)
    requires i < |CodeOf(lines)|
    ensures IsCode(CodeOf(lines))
    ensures Holds(ProgramOf(lines), p, i, ArgumentValue(ReadLines(lines).labels, CodeOf(lines)[i].argument))
  {
    hide Predefined, ReadLines, CodeOf, PositionsOf, Image, Constant, InstructionBytes, Known, Target, SamePlace, Sizes,
      Low32, ArgumentValue, IsCode;
    var c, end := ProgramOf(lines), ReadLines(lines);
    CodeIsKnown(lines);
    assert lines[..|lines|] == lines;
    DataIsRead(lines, at, |lines|);
    AddressIsSize(lines);
    var b := c.code[i];
    assert end.working[i] == b && end.working[..i] == c.code[..i];
    ImageHolds(end.labels, end.working, i);
    if Constant(b.argument).Some? { ConstantsKept(lines, b.argument); }
    if Target(c, b.argument).Some? { TargetHolds(lines, at, b.argument); }
  }

  lemma {:induction false} AddressIsSmall(lines: seq<Line>, name: string)
    requires name in ReadLines(lines).labels
    ensures ReadLines(lines).labels[name].address < TWO32
    decreases |lines|
  {
    if lines == [] {
      PredefinedAreSmall(name);
    } else {
      var n := |lines| - 1;
      hide Predefined;
      AddressReached(lines[..n]);
      if name in ReadLines(lines[..n]).labels { AddressIsSmall(lines[..n], name); }
      OneLine(ReadLines(lines[..n]), lines[n]);
    }
  }

  lemma {:induction false} AddressReached(lines: seq<Line>)
    ensures ReadLines(lines).instrAddr < TWO32
    decreases |lines|
  {
    hide Predefined;
    if lines != [] { AddressReached(lines[..|lines| - 1]); }
  }

  lemma PredefinedAreSmall(name: string)
    requires name in Predefined()
    ensures Predefined()[name].address < 32
  {
    hide Registers, SystemFunctions;
    if name in SystemFunctions() {
      assert SystemFunctions()[name].address < 32 by { SystemFunctionsAreSmall(name); }
    } else {
      RegistersAreSmall(32, name);
    }
  }

  lemma SystemFunctionsAreSmall(name: string)
    requires name in SystemFunctions()
    ensures SystemFunctions()[name].address < 32
  {
  }

  lemma {:induction false} RegistersAreSmall(n: nat, name: string)
    requires name in Registers(n)
    ensures Registers(n)[name].address < n
  {
    if name != "R" + Digits(n - 1) { RegistersAreSmall(n - 1, name); }
  }

  lemma AssembledIsLoaded(lines: seq<Line>, at: nat, p: Vm.Program)
    requires CodeThenData(lines, at) && AllKnown(lines) && !ReadLines(lines).hasError
    requires Sizes(CodeOf(lines)) < TWO31 && Sizes(ReadLines(lines).working) < TWO32
    requires p.memory == Image(ReadLines(lines).labels, ReadLines(lines).working)
    requires p.codeEnd == ReadLines(lines).dataStart % TWO32
    ensures Loaded(ProgramOf(lines), p, OperandBits(ReadLines(lines).labels, CodeOf(lines)))
  {
    hide ReadLines, CodeOf, PositionsOf, Image, Holds, Sizes, ArgumentValue, Predefined, Known;
    assert lines[..|lines|] == lines;
    DataIsRead(lines, at, |lines|);
    CodeIsKnown(lines);
    CodeGrows(lines, at);
    var c := ProgramOf(lines);
    var bits := OperandBits(ReadLines(lines).labels, c.code);
    forall i | 0 <= i < |c.code|
      ensures Holds(c, p, i, bits[i])
    {
      InstructionHolds(lines, at, p, i);
    }
  }

  // The bytes the assembler writes for an error-free program run as the labelled
  // program does, for any number of steps.
  lemma AssembledRuns(d: Decoder, lines: seq<Line>, at: nat, heap: bv32, heapMax: bv32, beyond: nat -> bv8,
                      garbage: seq<int>, n: nat)
    requires CodeThenData(lines, at) && AllKnown(lines) && !ReadLines(lines).hasError
    requires Sizes(CodeOf(lines)) < TWO31 && Sizes(ReadLines(lines).working) < TWO32
    requires |garbage| == Vm.REACHABLE
    ensures IsCode(CodeOf(lines))
    ensures var end := ReadLines(lines);
            var file := Header(heap, heapMax, end.dataStart % TWO32) + Image(end.labels, end.working);
            && ReadProgram(file, beyond).Some?
            && SameOutcome(CodeOf(lines), Run(ProgramOf(lines), InitialState(garbage), n),
                           Vm.Run(d, ReadProgram(file, beyond).value, Vm.InitialState(garbage), n))
  {
    hide ReadLines, CodeOf, Header, Image, SameOutcome, InitialState, Vm.InitialState, Loaded, ReadProgram, OperandBits,
      Corresponds, Run, Vm.Run, CodeThenData, AllKnown, Sizes;
    var end := ReadLines(lines);
    var p := Vm.Program(Image(end.labels, end.working), beyond, end.dataStart % TWO32);
    HeaderReads(heap, heapMax, end.dataStart % TWO32, p.memory, beyond);
    AssembledIsLoaded(lines, at, p);
    CodeIsKnown(lines);
    InitialCorresponds(CodeOf(lines), garbage);
    RunCorresponds(d, ProgramOf(lines), p, OperandBits(end.labels, CodeOf(lines)), InitialState(garbage),
                   Vm.InitialState(garbage), n);
  }

  // A jump over nothing and an exit: a program that meets every condition above, follows its
  // label, and ends with 0.
  const SMALL: seq<Line> := [
    Line(None, Ins(0x02, Some(Name("go")))),
    Line(Some("go"), Ins(0x01, None)),
    Line(None, DataStart)
  ]

  lemma SmallProgram(d: Decoder, heap: bv32, heapMax: bv32, beyond: nat -> bv8, garbage: seq<int>)
    requires |garbage| == Vm.REACHABLE
    ensures CodeThenData(SMALL, 2) && AllKnown(SMALL) && !ReadLines(SMALL).hasError
    ensures var end := ReadLines(SMALL);
            var file := Header(heap, heapMax, end.dataStart % TWO32) + Image(end.labels, end.working);
            ReadProgram(file, beyond).Some?
            && Vm.Run(d, ReadProgram(file, beyond).value, Vm.InitialState(garbage), 2) == Vm.Exited(0)
  {
    SmallIsRead();
    SmallRuns(garbage);
    AssembledRuns(d, SMALL, 2, heap, heapMax, beyond, garbage, 2);
  }

  lemma GoIsNew()
    ensures "go" !in Predefined() && ReadsAsLabel("go")
  {
    PredefinedExact("go");
    SystemExact("go");
    assert "go"[0] in "go" && !IsNumeric("go"[0]);
    forall k: nat ensures RegisterName(k) != "go" {
      assert RegisterName(k)[0] == 'R';
    }
  }

  lemma SmallIsRead()
    ensures CodeThenData(SMALL, 2) && AllKnown(SMALL) && !ReadLines(SMALL).hasError
    ensures CodeOf(SMALL) == [SMALL[0].body, SMALL[1].body] && PositionsOf(SMALL) == map["go" := 1]
    ensures Sizes(CodeOf(SMALL)) < TWO31 && Sizes(ReadLines(SMALL).working) < TWO32
  {
    GoIsNew();
    SmallCode();
    var code := [SMALL[0].body, SMALL[1].body];
    assert code[..1] == [SMALL[0].body] && code[..1][..0] == [];
    assert Sizes(code[..1]) == 5 && Sizes(code) == 6;
    SmallPasses();
  }

  lemma SmallCode()
    ensures CodeOf(SMALL) == [SMALL[0].body, SMALL[1].body] && PositionsOf(SMALL) == map["go" := 1]
  {
    assert SMALL[..2][..1] == SMALL[..1] && SMALL[..1][..0] == [];
    assert CodeOf(SMALL[..1]) == [SMALL[0].body] && PositionsOf(SMALL[..1]) == map[];
    assert CodeOf(SMALL[..2]) == [SMALL[0].body, SMALL[1].body] && PositionsOf(SMALL[..2]) == map["go" := 1];
  }

  lemma SmallPasses()
    ensures !ReadLines(SMALL).hasError && ReadLines(SMALL).working == [SMALL[0].body, SMALL[1].body]
  {
    GoIsNew();
    hide Predefined, ReadsAsLabel;
    assert SMALL[..2][..1] == SMALL[..1] && SMALL[..1][..0] == [];
    var first := ReadLine(Start(), SMALL[0]);
    assert ReadLines([]) == Start() && ReadLines(SMALL[..1]) == first;
    assert first.labels == Predefined() && first.working == [SMALL[0].body] && !first.hasError;
    var second := ReadLine(first, SMALL[1]);
    assert ReadLines(SMALL[..2]) == second;
    assert second.working == [SMALL[0].body, SMALL[1].body] && !second.hasError;
    hide ReadLines, ReadLine;
    LastLine(second);
  }

  lemma LastLine(second: Pass)
    requires ReadLines(SMALL[..2]) == second
    ensures ReadLines(SMALL).working == second.working && ReadLines(SMALL).hasError == second.hasError
  {
    hide Predefined;
  }

  lemma SmallRuns(garbage: seq<int>)
    requires |garbage| == Vm.REACHABLE
    requires CodeOf(SMALL) == [SMALL[0].body, SMALL[1].body] && PositionsOf(SMALL) == map["go" := 1]
    ensures IsCode(CodeOf(SMALL)) && Run(ProgramOf(SMALL), InitialState(garbage), 2) == Exited(0)
  {
    hide CodeOf, PositionsOf;
    var c, s := ProgramOf(SMALL), InitialState(garbage);
    assert c.code[0].opcode == 0x02 && c.code[1].opcode == 0x01;
    assert Step(c, s) == Running(s.(pc := 1));
    assert Meaning(0x01, ArgumentValue(map[], None)) == Exit;
    assert Step(c, s.(pc := 1)) == Exited(0);
  }
}
