// Call frames: a call that returns puts everything back, however deeply the callee
// calls in turn.

module Frames {
  import opened Options
  import opened Words
  import opened Encoding
  import opened StackSet
  import opened StackCells
  import opened Vm

  // How the calls of a run nest: the steps of one frame, some of which run a callee from
  // its CALL to its RET.
  datatype Nest = End | Plain(rest: Nest) | Invoke(callee: Nest, rest: Nest)

  function Length(b: Nest): nat {
    match b
    case End => 0
    case Plain(rest) => 1 + Length(rest)
    case Invoke(callee, rest) => Length(callee) + 2 + Length(rest)
  }

  // The operation at the instruction pointer, when there is one.
  function Current(d: Decoder, p: Program, s: State): Option<Operation> {
    if !(0 <= s.ip < |p.memory| && s.ip < p.codeEnd) then None
    else Some(DecodeOperation(d, Fetch(p.memory, p.beyond, s.ip)))
  }

  predicate IsPlain(o: Operation) { !o.Call? && !o.Return? }

  // The machine's run along b: nothing when it ends before or does not call and return
  // where b says.
  function Follow(d: Decoder, p: Program, b: Nest, s: State): Option<State>
    decreases b, 0
  {
    match b
    case End => Some(s)
    case Plain(rest) =>
      if Current(d, p, s).Some? && IsPlain(Current(d, p, s).value) && Step(d, p, s).Running? then
        Follow(d, p, rest, Step(d, p, s).s)
      else None
    case Invoke(callee, rest) =>
      match FollowCall(d, p, callee, s)
      case None => None
      case Some(s') => Follow(d, p, rest, s')
  }

  // From a CALL to just behind it.
  function FollowCall(d: Decoder, p: Program, callee: Nest, s: State): Option<State>
    decreases callee, 1
  {
    if !(Current(d, p, s).Some? && Current(d, p, s).value.Call? && Step(d, p, s).Running?) then None else
    match Follow(d, p, callee, Step(d, p, s).s)
    case None => None
    case Some(t) =>
      if Current(d, p, t).Some? && Current(d, p, t).value.Return? && Step(d, p, t).Running? then
        Some(Step(d, p, t).s)
      else None
  }

  // Following is running.
  lemma {:induction false} FollowIsRun(d: Decoder, p: Program, b: Nest, s: State, n: nat)
    requires Follow(d, p, b, s).Some?
    ensures Run(d, p, s, Length(b) + n) == Run(d, p, Follow(d, p, b, s).value, n)
    decreases b, 0
  {
    hide Step, Current;
    match b
    case End =>
    case Plain(rest) => FollowIsRun(d, p, rest, Step(d, p, s).s, n);
    case Invoke(callee, rest) =>
      FollowCallIsRun(d, p, callee, s, Length(rest) + n);
      FollowIsRun(d, p, rest, FollowCall(d, p, callee, s).value, n);
  }

  lemma {:induction false} FollowCallIsRun(d: Decoder, p: Program, callee: Nest, s: State, n: nat)
    requires FollowCall(d, p, callee, s).Some?
    ensures Run(d, p, s, Length(callee) + 2 + n) == Run(d, p, FollowCall(d, p, callee, s).value, n)
    decreases callee, 1
  {
    hide Step, Current;
    FollowIsRun(d, p, callee, Step(d, p, s).s, n + 1);
  }

  //// Manners ////

  // An instruction of a frame with `argBytes` of arguments leaves the link cells and
  // everything below the arguments alone.
  predicate PoliteStep(o: Operation, s: State, argBytes: nat) {
    match o
    case Store(Locals, offset, _) => offset >= 4
    case Store(Arguments, offset, width) => width <= offset / 4 <= argBytes / 4
    case Compute(f) => s.sp - Pops(f) > s.frame
    case _ => true
  }

  // Neither a link cell nor a cell below the arguments.
  predicate MayChange(cell: int, frame: int, argBytes: nat) {
    cell >= frame - argBytes / 4 && cell != frame && cell != frame + 1
  }

  // A store is polite exactly when the cells it writes may change, a computation when its
  // operands lie above the links.
  lemma PoliteExact(area: Area, offset: nat, width: nat, f: Function, s: State, argBytes: nat)
    requires offset % 4 == 0 && argBytes % 4 == 0 && 1 <= width <= 2
    ensures var to := CellOf(area, s.frame, offset);
            PoliteStep(Store(area, offset, width), s, argBytes) <==>
            MayChange(to, s.frame, argBytes) && MayChange(to + width - 1, s.frame, argBytes)
    ensures PoliteStep(Compute(f), s, argBytes) <==> s.sp - Pops(f) + 1 > s.frame + 1
  {
  }

  // Every instruction is polite, the stack pointer stays above the link cells, and a
  // call's arguments lie above them.
  predicate Polite(d: Decoder, p: Program, b: Nest, s: State, argBytes: nat)
    decreases b, 0
  {
    s.sp > s.frame &&
    match b
    case End => true
    case Plain(rest) =>
      Current(d, p, s).Some? && Step(d, p, s).Running? ==>
        PoliteStep(Current(d, p, s).value, s, argBytes) && Polite(d, p, rest, Step(d, p, s).s, argBytes)
    case Invoke(callee, rest) =>
      PoliteCall(d, p, callee, s) &&
      (FollowCall(d, p, callee, s).Some? ==> Polite(d, p, rest, FollowCall(d, p, callee, s).value, argBytes))
  }

  // What the RET that ends the callee says about its arguments decides what the callee
  // may touch.
  predicate PoliteCall(d: Decoder, p: Program, callee: Nest, s: State)
    decreases callee, 1
  {
    s.ip + 5 < TWO31 &&
    (Step(d, p, s).Running? && Follow(d, p, callee, Step(d, p, s).s).Some? ==>
       var t := Follow(d, p, callee, Step(d, p, s).s).value;
       Current(d, p, t).Some? && Current(d, p, t).value.Return? ==>
         var r := Current(d, p, t).value;
         && Polite(d, p, callee, Step(d, p, s).s, r.argBytes)
         && s.sp - r.argBytes / 4 > s.frame)
  }

  //// What is kept ////

  // Below the arguments of the frame, and in its link cells, nothing changes.
  predicate Kept(a: seq<int>, b: seq<int>, frame: int, argBytes: nat) {
    |a| == |b| && forall i :: 0 <= i < |a| && (i < frame - argBytes / 4 || frame <= i <= frame + 1) ==> b[i] == a[i]
  }

  lemma PlainKeeps(o: Operation, s: State, next: int, argBytes: nat)
    requires IsPlain(o) && s.sp > s.frame && PoliteStep(o, s, argBytes) && Execute(o, s, next).Running?
    ensures Execute(o, s, next).s.frame == s.frame
    ensures Kept(s.cells, Execute(o, s, next).s.cells, s.frame, argBytes)
  {
    hide Results, Pops, Peek;
  }

  lemma StepExecutes(d: Decoder, p: Program, s: State)
    requires Current(d, p, s).Some?
    ensures s.ip >= 0
    ensures Step(d, p, s) == Checked(Execute(Current(d, p, s).value, s,
                                             s.ip + Advance(Opcode(d, Fetch(p.memory, p.beyond, s.ip)))))
  {
    hide Execute, DecodeOperation, Fetch, Opcode, Advance;
  }

  // CALL is the only operation of its opcode, and its return address lies 5 bytes on.
  lemma CallAdvances(d: Decoder, p: Program, s: State)
    requires Current(d, p, s).Some? && Current(d, p, s).value.Call?
    ensures Advance(Opcode(d, Fetch(p.memory, p.beyond, s.ip))) == 5
  {
    hide DECODE_8, DECODE_32, DECODE_64, Opcode, Fetch;
    var raw := Fetch(p.memory, p.beyond, s.ip);
    OnlyCallCalls(Opcode(d, raw), DECODE_8(d, raw), DECODE_32(d, raw), DECODE_64(d, raw));
  }

  lemma OnlyCallCalls(opcode: bv8, c8: bv8, c32: bv32, c64: bv64)
    requires Dispatch(opcode, c8, c32, c64).Call?
    ensures opcode == 0x03
  {
    hide General, Arithmetics, BitStuff, Comparisons, Accesses, Signed32, Signed64, Low, High;
  }

  // The state `u` behind a call, `t` being the one before its RET: the arguments are
  // gone, the callee's topmost cells stand in their place, and nothing below has changed.
  predicate Returned(s: State, t: State, u: State, next: int, argBytes: nat, width: nat) {
    && argBytes % 4 == 0
    && u.ip == next && u.frame == s.frame && u.sp == s.sp - argBytes / 4 + width
    && |u.cells| == |s.cells|
    && (forall i :: 0 <= i < |s.cells| && i <= s.sp - argBytes / 4 ==> u.cells[i] == s.cells[i])
    && Within(t.cells, t.sp - width + 1, width) && Within(u.cells, u.sp - width + 1, width)
    && Peek(u.cells, u.sp - width + 1, width) == Peek(t.cells, t.sp - width + 1, width)
  }

  // What CALL leaves in the link cells survives to the RET.
  lemma LinksSurvive(to: nat, next: int, s: State, cells: seq<int>, argBytes: nat)
    requires Is32(next) && Execute(Call(to), s, next).Running?
    requires Kept(Execute(Call(to), s, next).s.cells, cells, s.sp + 1, argBytes)
    ensures |cells| == |s.cells| && Within(cells, s.sp + 1, 2)
    ensures cells[s.sp + 1] == s.frame && cells[s.sp + 2] == next
    ensures forall i :: 0 <= i < |cells| && i <= s.sp - argBytes / 4 ==> cells[i] == s.cells[i]
  {
    var at := s.sp + 1;
    var after := Execute(Call(to), s, next).s.cells;
    assert after[at] == s.frame && after[at + 1] == next;
    hide Poke;
  }

  // The result is copied before it can be overwritten, even when it lands on the cells
  // it came from.
  lemma PokedPeek(cells: seq<int>, from: int, to: int, n: nat)
    requires Within(cells, from, n) && Within(cells, to, n)
    ensures Peek(Poke(cells, to, Peek(cells, from, n)), to, n) == Peek(cells, from, n)
  {
  }

  lemma ReturnRestores(to: nat, next: int, s: State, t: State, argBytes: nat, width: nat)
    requires Is32(next) && Execute(Call(to), s, next).Running?
    requires t.frame == s.sp + 1
    requires Kept(Execute(Call(to), s, next).s.cells, t.cells, t.frame, argBytes)
    requires ExecuteReturn(argBytes, width, t).Running?
    ensures Returned(s, t, ExecuteReturn(argBytes, width, t).s, next, argBytes, width)
  {
    hide Peek, Poke, Execute, Kept;
    LinksSurvive(to, next, s, t.cells, argBytes);
    PokedPeek(t.cells, t.sp - width + 1, t.frame - argBytes / 4, width);
  }

  lemma ReturnExecutes(r: Operation, t: State, next: int)
    requires r.Return?
    ensures Execute(r, t, next) == ExecuteReturn(r.argBytes, r.width, t)
  {
  }

  lemma CallExecutes(to: nat, s: State, next: int)
    requires Execute(Call(to), s, next).Running?
    ensures Execute(Call(to), s, next).s.frame == s.sp + 1
  {
  }

  //// Balance ////

  // A polite body ends in the frame it began in, with everything outside its own cells
  // and arguments as it was.
  lemma {:induction false} BodyKeeps(d: Decoder, p: Program, b: Nest, s: State, argBytes: nat)
    requires Polite(d, p, b, s, argBytes) && Follow(d, p, b, s).Some?
    ensures Follow(d, p, b, s).value.frame == s.frame
    ensures Kept(s.cells, Follow(d, p, b, s).value.cells, s.frame, argBytes)
    decreases b, 0
  {
    hide Step, Current, Execute, PoliteStep, PoliteCall, FollowCall, Fetch, Opcode, Advance;
    match b
    case End =>
    case Plain(rest) =>
      StepExecutes(d, p, s);
      PlainKeeps(Current(d, p, s).value, s, s.ip + Advance(Opcode(d, Fetch(p.memory, p.beyond, s.ip))), argBytes);
      BodyKeeps(d, p, rest, Step(d, p, s).s, argBytes);
    case Invoke(callee, rest) =>
      var t, r := CallReturns(d, p, callee, s);
      BodyKeeps(d, p, rest, FollowCall(d, p, callee, s).value, argBytes);
  }

  // Call and return are balanced at any nesting depth.
  lemma {:induction false} CallReturns(d: Decoder, p: Program, callee: Nest, s: State) returns (t: State, r: Operation)
    requires PoliteCall(d, p, callee, s) && s.sp > s.frame && FollowCall(d, p, callee, s).Some?
    ensures Follow(d, p, callee, Step(d, p, s).s) == Some(t)
    ensures Current(d, p, t) == Some(r) && r.Return?
    ensures Returned(s, t, FollowCall(d, p, callee, s).value, s.ip + 5, r.argBytes, r.width)
    ensures s.sp - r.argBytes / 4 > s.frame
    decreases callee, 1
  {
    hide Execute, Fetch, Opcode, Advance, DecodeOperation, Polite, Follow;
    var call := Current(d, p, s).value;
    var s' := Step(d, p, s).s;
    t := Follow(d, p, callee, s').value;
    r := Current(d, p, t).value;
    BodyKeeps(d, p, callee, s', r.argBytes);
    StepExecutes(d, p, s);
    StepExecutes(d, p, t);
    CallAdvances(d, p, s);
    ReturnExecutes(r, t, t.ip + Advance(Opcode(d, Fetch(p.memory, p.beyond, t.ip))));
    CallExecutes(call.to, s, s.ip + 5);
    hide Step, Current;
    ReturnRestores(call.to, s.ip + 5, s, t, r.argBytes, r.width);
  }

  // The smallest balanced call: CALL to a RET, with EXIT in between.
  function SmallestCall(beyond: nat -> bv8): Program {
    Program(InstructionBytes(0x03, 6) + InstructionBytes(0x01, 0) + InstructionBytes(0x04, 0), beyond, 8)
  }

  lemma SmallestCallReturns(d: Decoder, beyond: nat -> bv8, garbage: seq<int>)
    requires |garbage| == REACHABLE
    ensures var p, s := SmallestCall(beyond), InitialState(garbage);
            && s.sp > s.frame && PoliteCall(d, p, End, s)
            && FollowCall(d, p, End, s).Some? && FollowCall(d, p, End, s).value.ip == 5
  {
    hide Fetch, Opcode, DecodeOperation, InstructionBytes, Current, Step;
    var p, s := SmallestCall(beyond), InitialState(garbage);
    var t := SmallestCallBegins(d, beyond, s);
    CurrentAt(d, p, t, 0x04, 0);
    StepExecutes(d, p, t);
    assert Step(d, p, t).Running? && Step(d, p, t).s.ip == 5;
  }

  lemma CurrentAt(d: Decoder, p: Program, s: State, opcode: bv8, argument: bv64)
    requires 0 <= s.ip && s.ip + ByteSize(opcode) <= |p.memory| && s.ip < p.codeEnd
    requires p.memory[s.ip..s.ip + ByteSize(opcode)] == InstructionBytes(opcode, argument)
    ensures Current(d, p, s) == Some(Meaning(opcode, argument))
  {
    CurrentIs(d, p, s, opcode, argument);
  }

  lemma SmallestCallBegins(d: Decoder, beyond: nat -> bv8, s: State) returns (t: State)
    requires |s.cells| == REACHABLE && s.ip == 0 && s.sp == 1 && s.frame == 0 && s.sysArgs == []
    ensures Current(d, SmallestCall(beyond), s) == Some(Call(6))
    ensures Step(d, SmallestCall(beyond), s) == Running(t)
    ensures t.ip == 6 && t.sp == 3 && t.frame == 2 && |t.cells| == REACHABLE && t.cells[2] == 0 && t.cells[3] == 5
  {
    hide Fetch, DecodeOperation, InstructionBytes, Step;
    CurrentIs(d, SmallestCall(beyond), s, 0x03, 6);
    StepExecutes(d, SmallestCall(beyond), s);
    t := Step(d, SmallestCall(beyond), s).s;
  }

  // The operation at an address that holds an instruction's bytes.
  lemma CurrentIs(d: Decoder, p: Program, s: State, opcode: bv8, argument: bv64)
    requires 0 <= s.ip && s.ip + ByteSize(opcode) <= |p.memory| && s.ip < p.codeEnd
    requires p.memory[s.ip..s.ip + ByteSize(opcode)] == InstructionBytes(opcode, argument)
    ensures Current(d, p, s) == Some(Meaning(opcode, argument))
    ensures Opcode(d, Fetch(p.memory, p.beyond, s.ip)) == opcode
  {
    hide Fetch, DecodeOperation, Meaning, InstructionBytes, Opcode;
    var raw := Fetch(p.memory, p.beyond, s.ip);
    FetchSplits(p.memory, p.beyond, s.ip, ByteSize(opcode));
    DecodesToMeaning(d, opcode, argument, raw[ByteSize(opcode)..]);
  }

  //// Variables ////

  // What was stored in a variable is what loading it pushes, with `sp` and frame back
  // where they were.
  lemma StoredIsLoaded(area: Area, offset: nat, width: nat, s: State, next: int, t: State, after: int)
    requires ExecuteStore(area, offset, width, s, next) == Running(t)
    ensures var r := ExecuteLoad(area, offset, width, t, after);
            && r.Running? && r.s.sp == s.sp && r.s.frame == s.frame
            && Peek(r.s.cells, s.sp - width + 1, width) == Peek(s.cells, s.sp - width + 1, width)
  {
    hide Poke, Peek, CellOf;
    PokedPeek(s.cells, s.sp - width + 1, CellOf(area, s.frame, offset), width);
    PokedPeek(t.cells, CellOf(area, s.frame, offset), s.sp - width + 1, width);
  }
}
