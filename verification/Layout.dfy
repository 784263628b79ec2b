// The two passes of the assembler over a program already split into labels,
// instructions, data and the .DATA marker, in stack mode: what the first pass records
// and what the second writes.

module Layout {
  import opened Options
  import opened Words
  import opened Decimal
  import opened Encoding
  import opened StackSet

  datatype Argument = Number(value: bv64) | Name(labelName: string)

  datatype Body =
    | Empty
    | Ins(opcode: bv8, argument: Option<Argument>)
    | Data(size: nat, text: Bytes)   // .BYTE with a string
    | DataStart                      // .DATA

  datatype Line = Line(labelName: Option<string>, body: Body)

  datatype Label = Label(address: nat, refCount: nat)

  type Dictionary = map<string, Label>

  //// How the text of an argument is read ////

  predicate IsNumeric(c: char) { c == '.' || c == 'f' || c == '-' || '0' <= c <= '9' }

  predicate IsOperator(c: char) { c == '+' || c == '-' || c == '*' || c == '/' }

  datatype Reading =
    | Real                                                 // stof or stod
    | Integer                                              // stoull, which throws on "f"
    | Operation(left: string, op: char, right: string)
    | ManyOperators
    | LabelNamed(name: string)

  // The first place from i on where an operator stands, or the length of the text.
  function FirstOperator(arg: string, i: nat): (k: nat)
    requires i <= |arg|
    ensures i <= k <= |arg| && (k < |arg| ==> IsOperator(arg[k]))
    ensures forall j :: i <= j < k ==> !IsOperator(arg[j])
    decreases |arg| - i
  {
    if i == |arg| || IsOperator(arg[i]) then i else FirstOperator(arg, i + 1)
  }

  // The branches of EvaluateArgument, in order.
  function ReadArgument(arg: string): Reading {
    if (forall c :: c in arg ==> IsNumeric(c)) && '.' in arg then Real
    else if (forall c :: c in arg ==> IsNumeric(c)) && (forall i :: 0 < i < |arg| ==> arg[i] != '-') then Integer
    else
      var k := FirstOperator(arg, 0);
      if k == |arg| then LabelNamed(arg)
      else if FirstOperator(arg, k + 1) < |arg| then ManyOperators
      else Operation(arg[..k], arg[k], arg[k + 1..])
  }

  // A name that an argument can refer to.
  predicate ReadsAsLabel(name: string) {
    (exists c :: c in name && !IsNumeric(c)) && forall c :: c in name ==> !IsOperator(c)
  }

  // Exactly these reach the branch that resolves a label; the minus sign it looks for is
  // never there.
  lemma LabelsReadExact(arg: string)
    ensures ReadArgument(arg) == LabelNamed(arg) <==> ReadsAsLabel(arg)
    ensures ReadArgument(arg).LabelNamed? ==> ReadArgument(arg) == LabelNamed(arg) && arg != "" && arg[0] != '-'
  {
    var k := FirstOperator(arg, 0);
    if k == |arg| && !exists c :: c in arg && !IsNumeric(c) {
      assert forall i :: 0 <= i < |arg| ==> !IsOperator(arg[i]);
    }
    if k < |arg| { assert arg[k] in arg && IsOperator(arg[k]); }
  }

  // Two labels the first pass takes and no argument reaches.
  lemma UnreachableLabels()
    ensures ReadArgument("f") == Integer && ReadArgument("-x") == Operation("", '-', "x")
    ensures !ReadsAsLabel("f") && !ReadsAsLabel("-x")
  {
    var s := "-x";
    assert s[1] in s && !IsNumeric(s[1]) && s[0] in s && IsOperator(s[0]);
    assert FirstOperator(s, 0) == 0 && FirstOperator(s, 1) == FirstOperator(s, 2) == 2;
    assert s[..0] == "" && s[1..] == "x";
  }

  // Mnemonics are those of the stack set, arguments are numbers or read as labels, and a
  // string fills at most its text and the terminator: beyond that the original reads
  // memory it does not own.
  predicate Known(line: Line) {
    match line.body
    case Ins(opcode, Some(Name(name))) => opcode <= LAST_OPCODE && ReadsAsLabel(name)
    case Ins(opcode, _) => opcode <= LAST_OPCODE
    case Data(size, text) => size <= |text| + 1
    case _ => true
  }

  predicate AllKnown(lines: seq<Line>) { forall line :: line in lines ==> Known(line) }

  //// Predefined labels ////

  function Registers(n: nat): Dictionary {
    if n == 0 then map[] else Registers(n - 1)["R" + Digits(n - 1) := Label(n - 1, 0)]
  }

  function SystemFunctions(): Dictionary {
    map["__print" := Label(0, 0), "__input" := Label(1, 0), "__write" := Label(2, 0), "__read" := Label(3, 0),
        "__open" := Label(4, 0), "__close" := Label(5, 0), "__str" := Label(6, 0)]
  }

  function Predefined(): Dictionary { Registers(32) + SystemFunctions() }

  function RegisterName(k: nat): string { "R" + Digits(k) }

  // The 32 registers under their numbers and the seven system functions under the
  // interpreter's; nothing else is predefined.
  lemma PredefinedExact(name: string)
    ensures name in Predefined() <==> (exists k: nat :: k < 32 && name == RegisterName(k)) || name in SystemFunctions()
    ensures forall k: nat :: k < 32 && name == RegisterName(k) ==> Predefined()[name].address == k
    ensures name in SystemFunctions() ==> Predefined()[name].address == SystemFunctions()[name].address
  {
    RegistersExact(32, name);
    SystemExact(name);
    hide Registers, SystemFunctions;
    if k: nat :| k < 32 && name == RegisterName(k) {
      assert name[0] == 'R';
    }
  }

  lemma SystemExact(name: string)
    ensures name in SystemFunctions() <==>
              name == "__print" || name == "__input" || name == "__write" || name == "__read" || name == "__open"
              || name == "__close" || name == "__str"
    ensures name == "__print" ==> SystemFunctions()[name].address == 0
    ensures name == "__input" ==> SystemFunctions()[name].address == 1
    ensures name == "__write" ==> SystemFunctions()[name].address == 2
    ensures name == "__read" ==> SystemFunctions()[name].address == 3
    ensures name == "__open" ==> SystemFunctions()[name].address == 4
    ensures name == "__close" ==> SystemFunctions()[name].address == 5
    ensures name == "__str" ==> SystemFunctions()[name].address == 6
    ensures name in SystemFunctions() ==> name[0] == '_'
  {
  }

  lemma RegisterNamesApart(j: nat, k: nat)
    requires RegisterName(j) == RegisterName(k)
    ensures j == k
  {
    assert RegisterName(j)[1..] == Digits(j) && RegisterName(k)[1..] == Digits(k);
    DigitsInjective(j, k);
  }

  lemma {:induction false} RegistersExact(n: nat, name: string)
    ensures name in Registers(n) <==> exists k: nat :: k < n && name == RegisterName(k)
    ensures forall k: nat :: k < n && name == RegisterName(k) ==> Registers(n)[name].address == k
  {
    if n > 0 {
      RegistersExact(n - 1, name);
      assert Registers(n) == Registers(n - 1)[RegisterName(n - 1) := Label(n - 1, 0)];
      hide RegisterName;
      if name == RegisterName(n - 1) {
        forall k: nat | k < n && name == RegisterName(k)
          ensures k == n - 1
        {
          RegisterNamesApart(k, n - 1);
        }
      } else {
        assert name in Registers(n) <==> name in Registers(n - 1);
      }
    }
  }

  //// First pass ////

  datatype Pass = Pass(instrAddr: nat, labels: Dictionary, working: seq<Body>, dataStart: nat, hasError: bool)

  function Start(): Pass { Pass(0, Predefined(), [], TWO32 - 1, false) }

  function SizeOf(b: Body): nat {
    match b
    case Ins(opcode, _) => ByteSize(opcode)
    case Data(size, _) => size
    case _ => 0
  }

  predicate WrongArguments(b: Body) {
    b.Ins? && (if b.argument.Some? then 1 else 0) != ArgCount(b.opcode)
  }

  // Addresses are 32 bits wide.
  function Forward(address: nat, n: nat): (r: nat)
    ensures r < TWO32
  {
    (address + n) % TWO32
  }

  function ReadBody(st: Pass, b: Body): Pass {
    match b
    case Empty => st
    case Ins(_, _) =>
      if WrongArguments(b) then st.(hasError := true)
      else st.(working := st.working + [b], instrAddr := Forward(st.instrAddr, SizeOf(b)))
    case Data(_, _) => st.(working := st.working + [b], instrAddr := Forward(st.instrAddr, SizeOf(b)))
    case DataStart => st.(dataStart := st.instrAddr)
  }

  // A label defined twice drops the rest of its line.
  function ReadLine(st: Pass, line: Line): Pass {
    match line.labelName
    case None => ReadBody(st, line.body)
    case Some(name) =>
      if name in st.labels then st.(hasError := true)
      else ReadBody(st.(labels := st.labels[name := Label(st.instrAddr, 0)]), line.body)
  }

  function ReadLines(lines: seq<Line>): Pass
    decreases |lines|
  {
    if lines == [] then Start() else
    var n := |lines| - 1;
    ReadLine(ReadLines(lines[..n]), lines[n])
  }

  //// Second pass ////

  // `EvaluateArgument` on a number or a label; an undefined label is an error and 0.
  function ArgumentValue(labels: Dictionary, argument: Option<Argument>): bv64 {
    match argument
    case None => 0
    case Some(Number(v)) => v
    case Some(Name(name)) => if name in labels then AddressBits(labels[name].address) else 0
  }

  // The address as 64 bits; no recorded address is larger.
  function AddressBits(address: nat): bv64 {
    if address < TWO32 then Widen(Word(address)) else 0
  }

  predicate UndefinedLabel(labels: Dictionary, b: Body) {
    b.Ins? && b.argument.Some? && b.argument.value.Name? && b.argument.value.labelName !in labels
  }

  function BytesOf(labels: Dictionary, b: Body): Bytes {
    match b
    case Ins(opcode, argument) => InstructionBytes(opcode, ArgumentValue(labels, argument))
    case Data(size, text) => if size <= |text| + 1 then (text + [0])[..size] else []
    case _ => []
  }

  // Everything the second pass writes behind the header.
  function Image(labels: Dictionary, working: seq<Body>): Bytes
    decreases |working|
  {
    if working == [] then [] else
    var n := |working| - 1;
    Image(labels, working[..n]) + BytesOf(labels, working[n])
  }

  // The header: mode, heap size, largest heap size, start of the data.
  function Header(heap: bv32, heapMax: bv32, dataStart: nat): (bytes: Bytes)
    requires dataStart < TWO32
    ensures |bytes| == 16
  {
    WordBytes(1) + WordBytes(heap) + WordBytes(heapMax) + WordBytes(Word(dataStart))
  }

  // The count `Assemble` returns: .BYTE has no entry in the size table, so the second
  // pass does not count data.
  function Counted(working: seq<Body>): (n: nat)
    ensures n < TWO32
  {
    if working == [] then 0 else
    var n := |working| - 1;
    Forward(Counted(working[..n]), if working[n].Ins? then SizeOf(working[n]) else 0)
  }

  function DataBytes(working: seq<Body>): nat
    decreases |working|
  {
    if working == [] then 0 else
    var n := |working| - 1;
    DataBytes(working[..n]) + if working[n].Data? then SizeOf(working[n]) else 0
  }

  //// What the first pass knows ////

  function Sizes(working: seq<Body>): nat
    decreases |working|
  {
    if working == [] then 0 else
    var n := |working| - 1;
    Sizes(working[..n]) + SizeOf(working[n])
  }

  // The part of the program before line k.
  function Before(lines: seq<Line>, k: nat): Pass
    requires k <= |lines|
  {
    ReadLines(lines[..k])
  }

  predicate AllEmitted(working: seq<Body>) {
    forall b :: b in working ==> (b.Ins? || b.Data?) && Known(Line(None, b))
  }

  lemma {:induction false} ImageSize(labels: Dictionary, working: seq<Body>)
    requires AllEmitted(working)
    ensures |Image(labels, working)| == Sizes(working)
    decreases |working|
  {
    if working != [] { ImageSize(labels, working[..|working| - 1]); }
  }

  lemma {:induction false} CountLeavesOutData(working: seq<Body>)
    requires AllEmitted(working)
    ensures (Counted(working) + DataBytes(working)) % TWO32 == Sizes(working) % TWO32
    decreases |working|
  {
    if working != [] {
      var n := |working| - 1;
      var b := working[n];
      CountLeavesOutData(working[..n]);
      var c, d, w := Counted(working[..n]), DataBytes(working[..n]), Sizes(working[..n]);
      assert b in working;
      hide SizeOf, Known;
      if b.Ins? {
        CountGrows(c, SizeOf(b), d, w);
      } else {
        assert Forward(c, 0) == c;
        SumGrows(c + d, w, SizeOf(b));
      }
    }
  }

  lemma SumGrows(x: nat, y: nat, n: nat)
    requires x % TWO32 == y % TWO32
    ensures (x + n) % TWO32 == (y + n) % TWO32
  {
    ForwardAdds(x, n);
    ForwardAdds(y, n);
  }

  lemma CountGrows(c: nat, n: nat, d: nat, w: nat)
    requires (c + d) % TWO32 == w % TWO32
    ensures (Forward(c, n) + d) % TWO32 == (w + n) % TWO32
  {
    SumGrows(c + d, w, n);
    ForwardAdds(c + n, d);
    assert Forward((c + n) % TWO32, d) == (Forward(c, n) + d) % TWO32;
  }

  // The count is the size of the image exactly when the image fits the counter and the
  // data bytes add up to nothing modulo 2^32: in an image below 4 GiB, when there are none.
  lemma CountIsSize(labels: Dictionary, working: seq<Body>)
    requires AllEmitted(working)
    ensures Counted(working) == |Image(labels, working)| % TWO32 <==> DataBytes(working) % TWO32 == 0
    ensures |Image(labels, working)| < TWO32 ==>
              (Counted(working) == |Image(labels, working)| <==> DataBytes(working) == 0)
  {
    ImageSize(labels, working);
    CountLeavesOutData(working);
    DataInSize(working);
    hide Counted, DataBytes, Image, Sizes, AllEmitted;
    CountFits(Counted(working), DataBytes(working), Sizes(working));
  }

  lemma CountFits(c: nat, d: nat, w: nat)
    requires c < TWO32 && (c + d) % TWO32 == w % TWO32 && d <= w
    ensures c == w % TWO32 <==> d % TWO32 == 0
    ensures w < TWO32 ==> (c == w <==> d == 0)
  {
    if d % TWO32 == 0 { Remainder(c + d, d / TWO32, c); }
    if (c + d) % TWO32 == c { Remainder(d, (c + d) / TWO32, 0); }
  }

  lemma {:induction false} DataInSize(working: seq<Body>)
    requires AllEmitted(working)
    ensures DataBytes(working) <= Sizes(working)
    decreases |working|
  {
    if working != [] { DataInSize(working[..|working| - 1]); }
  }

  // What one line does to the working text and the address, to the labels, and to the
  // error flag.
  lemma OneLine(st: Pass, line: Line)
    ensures var st', b := ReadLine(st, line), line.body;
            || (st'.working == st.working && st'.instrAddr == st.instrAddr)
            || (st'.working == st.working + [b] && st'.instrAddr == Forward(st.instrAddr, SizeOf(b))
                && (b.Ins? || b.Data?))
    ensures forall name :: name in st.labels ==>
              name in ReadLine(st, line).labels && ReadLine(st, line).labels[name] == st.labels[name]
    ensures forall name :: name in ReadLine(st, line).labels <==> name in st.labels || line.labelName == Some(name)
    ensures ReadLine(st, line).hasError <==>
            st.hasError || (line.labelName.Some? && line.labelName.value in st.labels) || WrongArguments(line.body)
  {
    hide SizeOf, Forward;
  }

  // The address reached is the number of bytes the working text so far will produce.
  lemma {:induction false} AddressIsSize(lines: seq<Line>)
    requires AllKnown(lines)
    ensures var st := ReadLines(lines); st.instrAddr == Sizes(st.working) % TWO32 && AllEmitted(st.working)
    decreases |lines|
  {
    hide Predefined, ReadLine, Known;
    if lines != [] {
      var n := |lines| - 1;
      AddressIsSize(lines[..n]);
      var st := ReadLines(lines[..n]);
      OneLine(st, lines[n]);
      Appended(st.working, lines[n]);
    }
  }

  lemma Appended(working: seq<Body>, line: Line)
    requires AllEmitted(working) && Known(line)
    ensures Sizes(working + [line.body]) == Sizes(working) + SizeOf(line.body)
    ensures Forward(Sizes(working) % TWO32, SizeOf(line.body)) == Sizes(working + [line.body]) % TWO32
    ensures line.body.Ins? || line.body.Data? ==> AllEmitted(working + [line.body])
  {
    assert (working + [line.body])[..|working|] == working;
    assert Sizes(working + [line.body]) == Sizes(working) + SizeOf(line.body);
    hide Sizes, SizeOf;
    ForwardAdds(Sizes(working), SizeOf(line.body));
  }

  lemma ForwardAdds(a: nat, n: nat)
    ensures Forward(a % TWO32, n) == (a + n) % TWO32
  {
    var q, k := a / TWO32, (a % TWO32 + n) / TWO32;
    assert a + n == TWO32 * (q + k) + (a % TWO32 + n) % TWO32;
    Remainder(a + n, q + k, (a % TWO32 + n) % TWO32);
  }

  lemma Remainder(x: nat, q: nat, r: nat)
    requires x == TWO32 * q + r && r < TWO32
    ensures x % TWO32 == r
  {
  }

  // Later lines only add: labels keep their addresses, the working text grows at its
  // end, and an error is never forgotten.
  lemma {:induction false} LinesOnlyAdd(lines: seq<Line>, k: nat)
    requires k <= |lines|
    ensures var st, end := Before(lines, k), ReadLines(lines);
            && st.working <= end.working
            && (forall name :: name in st.labels ==> name in end.labels && end.labels[name] == st.labels[name])
            && (st.hasError ==> end.hasError)
    decreases |lines|
  {
    hide Predefined, ReadLine;
    if k == |lines| {
      assert lines[..k] == lines;
    } else {
      var n := |lines| - 1;
      LinesOnlyAdd(lines[..n], k);
      OneLine(ReadLines(lines[..n]), lines[n]);
      assert lines[..n][..k] == lines[..k];
    }
  }

  lemma {:induction false} ImagePrefix(labels: Dictionary, working: seq<Body>, k: nat)
    requires k <= |working|
    ensures Image(labels, working[..k]) <= Image(labels, working)
    decreases |working|
  {
    if k == |working| {
      assert working[..k] == working;
    } else {
      var n := |working| - 1;
      ImagePrefix(labels, working[..n], k);
      assert working[..n][..k] == working[..k];
    }
  }

  lemma Registered(st: Pass, line: Line)
    requires line.labelName.Some? && !ReadLine(st, line).hasError
    ensures line.labelName.value in ReadLine(st, line).labels
    ensures ReadLine(st, line).labels[line.labelName.value].address == st.instrAddr
  {
    hide WrongArguments, SizeOf, Forward;
  }

  // Layout agreement: in a program without errors, the address recorded for a label is
  // the number of bytes the second pass has written when it reaches the label's line,
  // forward references or not.
  lemma LayoutAgrees(lines: seq<Line>, k: nat, labels: Dictionary)
    requires AllKnown(lines) && k < |lines| && lines[k].labelName.Some? && !ReadLines(lines).hasError
    ensures var name, end, before := lines[k].labelName.value, ReadLines(lines), Before(lines, k).working;
            && name in end.labels
            && before <= end.working
            && Image(labels, before) <= Image(labels, end.working)
            && end.labels[name].address == |Image(labels, before)| % TWO32
  {
    assert lines[..k + 1][..k] == lines[..k];
    assert Before(lines, k + 1) == ReadLine(Before(lines, k), lines[k]);
    hide ReadLines, Predefined, Known, Image, Sizes;
    LinesOnlyAdd(lines, k);
    LinesOnlyAdd(lines, k + 1);
    Registered(Before(lines, k), lines[k]);
    AddressIsSize(lines[..k]);
    ImageSize(labels, Before(lines, k).working);
    var end := ReadLines(lines).working;
    var before := Before(lines, k).working;
    assert end[..|before|] == before;
    ImagePrefix(labels, end, |before|);
  }

  // The whole image is as long as the first pass counted.
  lemma TotalSize(lines: seq<Line>, labels: Dictionary)
    requires AllKnown(lines)
    ensures var end := ReadLines(lines);
            |Image(labels, end.working)| == Sizes(end.working) && end.instrAddr == Sizes(end.working) % TWO32
  {
    AddressIsSize(lines);
    ImageSize(labels, ReadLines(lines).working);
  }

  // Is the label of line k already taken?
  predicate Duplicate(lines: seq<Line>, k: nat)
    requires k < |lines|
  {
    lines[k].labelName.Some? &&
    (lines[k].labelName.value in Predefined() || exists j :: 0 <= j < k && lines[j].labelName == lines[k].labelName)
  }

  predicate BadLine(lines: seq<Line>, k: nat)
    requires k < |lines|
  {
    Duplicate(lines, k) || WrongArguments(lines[k].body)
  }

  lemma {:induction false} DefinedNames(lines: seq<Line>, name: string)
    ensures name in ReadLines(lines).labels <==>
            name in Predefined() || exists j :: 0 <= j < |lines| && lines[j].labelName == Some(name)
    decreases |lines|
  {
    hide Predefined, ReadLine;
    if lines != [] {
      var n := |lines| - 1;
      DefinedNames(lines[..n], name);
      OneLine(ReadLines(lines[..n]), lines[n]);
      if j :| 0 <= j < |lines| && lines[j].labelName == Some(name) {
        if j < n { assert lines[..n][j].labelName == Some(name); }
      }
      if j :| 0 <= j < n && lines[..n][j].labelName == Some(name) {
        assert lines[j].labelName == Some(name);
      }
    }
  }

  // The first pass reports an error exactly when a label is defined twice (or takes a
  // predefined name) or an instruction has the wrong number of arguments.
  lemma {:induction false} ErrorsExact(lines: seq<Line>)
    ensures ReadLines(lines).hasError <==> exists k :: 0 <= k < |lines| && BadLine(lines, k)
    decreases |lines|
  {
    hide Predefined, ReadLine, WrongArguments, Duplicate;
    if lines != [] {
      var n := |lines| - 1;
      var front := lines[..n];
      ErrorsExact(front);
      forall k | 0 <= k < n
        ensures BadLine(front, k) <==> BadLine(lines, k)
      {
        assert front[k] == lines[k];
        DuplicatePrefix(lines, n, k);
      }
      assert (exists k :: 0 <= k < n && BadLine(front, k)) <==> exists k :: 0 <= k < n && BadLine(lines, k);
      assert (exists k :: 0 <= k < |lines| && BadLine(lines, k))
             <==> (exists k :: 0 <= k < n && BadLine(lines, k)) || BadLine(lines, n);
      OneLine(ReadLines(front), lines[n]);
      LastDuplicate(lines);
    }
  }

  lemma DuplicatePrefix(lines: seq<Line>, n: nat, k: nat)
    requires k < n <= |lines|
    ensures Duplicate(lines[..n], k) == Duplicate(lines, k)
  {
    hide Predefined;
    forall j | 0 <= j < k
      ensures lines[..n][j] == lines[j]
    {
    }
  }

  lemma LastDuplicate(lines: seq<Line>)
    requires lines != []
    ensures var n := |lines| - 1;
            Duplicate(lines, n) <==>
              lines[n].labelName.Some? && lines[n].labelName.value in ReadLines(lines[..n]).labels
  {
    hide Predefined, ReadLines;
    var n := |lines| - 1;
    if lines[n].labelName.Some? {
      var name := lines[n].labelName.value;
      DefinedNames(lines[..n], name);
      if j :| 0 <= j < n && lines[j].labelName == lines[n].labelName {
        assert lines[..n][j].labelName == Some(name);
      }
      if j :| 0 <= j < n && lines[..n][j].labelName == Some(name) {
        assert lines[j].labelName == lines[n].labelName;
      }
    }
  }
}
