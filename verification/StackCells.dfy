// Stack cells: reading and writing runs of them, and what each data instruction
// computes from the values it pops.

module StackCells {
  import opened Options
  import opened Words
  import opened Types
  import opened Encoding
  import opened StackSet

  predicate Within<T>(cells: seq<T>, at: int, n: nat) {
    n == 0 || (0 <= at && at + n <= |cells|)
  }

  function Peek<T>(cells: seq<T>, at: int, n: nat): (values: seq<T>)
    requires Within(cells, at, n)
    ensures |values| == n
  {
    if n == 0 then [] else cells[at..at + n]
  }

  function Poke<T>(cells: seq<T>, at: int, values: seq<T>): (result: seq<T>)
    requires Within(cells, at, |values|)
    ensures |result| == |cells|
    ensures forall i :: 0 <= i < |cells| ==> result[i] == if at <= i < at + |values| then values[i - at] else cells[i]
  {
    if values == [] then cells else cells[..at] + values + cells[at + |values|..]
  }

  // The cell a byte offset names: locals lie above the link cells of the frame,
  // arguments below it.
  function CellOf(area: Area, frame: int, offset: nat): int {
    match area
    case Locals => frame + 1 + offset / 4
    case Arguments => frame - offset / 4
  }

  function Pops(f: Function): nat {
    match f
    case Operator(_, wide) => 2 * Width(wide)
    case Bits(_, wide) => 2 * Width(wide)
    case Inv(wide) => Width(wide)
    case Negate(wide) => Width(wide)
    case Cpz(wide) => Width(wide)
    case IntToLong => 1
    case LongToInt => 2
  }

  // The value of `Width(wide)` cells.
  function Value(cells: seq<int>, wide: bool): int
    requires |cells| == Width(wide)
  {
    if wide then Join(cells[0], cells[1]) else cells[0]
  }

  // Cells hold what was put into them.
  lemma SplitsBack(v: int, wide: bool)
    requires Is64(v) && (!wide ==> Is32(v))
    ensures Value(Cells(v, wide), wide) == v && forall i :: 0 <= i < Width(wide) ==> Is32(Cells(v, wide)[i])
  {
    JoinSplits(v);
  }

  function BitsOf32(v: int): (w: bv32)
    ensures w as int == v % TWO32
  {
    Word(v % TWO32)
  }

  function BitsOf64(v: int): (w: bv64)
    ensures w as int == v % TWO64
  {
    var n := v % TWO64;
    DoubleWord(Word(n / TWO32), Word(n % TWO32))
  }

  function Bitwise(op: BitOp, wide: bool, a: int, b: int): (v: int)
    ensures Is64(v) && (!wide ==> Is32(v))
  {
    hide BitsOf32, BitsOf64, Signed32, Signed64;
    if wide then
      match op
      case BOR => Signed64(BitsOf64(a) | BitsOf64(b))
      case BXOR => Signed64(BitsOf64(a) ^ BitsOf64(b))
      case BAND => Signed64(BitsOf64(a) & BitsOf64(b))
    else
      match op
      case BOR => Signed32(BitsOf32(a) | BitsOf32(b))
      case BXOR => Signed32(BitsOf32(a) ^ BitsOf32(b))
      case BAND => Signed32(BitsOf32(a) & BitsOf32(b))
  }

  // The cells that replace the popped ones, or nothing when a division traps. INV.64
  // looks only at the low cell of its operand, and CPZ.64 answers in two cells.
  function Results(f: Function, popped: seq<int>): (pushed: Option<seq<int>>)
    requires |popped| == Pops(f)
    ensures pushed.Some? ==> |pushed.value| == Pushes(f)
  {
    match f
    case Operator(op, wide) =>
      var w := Width(wide);
      (match Apply(op, wide, Value(popped[..w], wide), Value(popped[w..], wide))
       case Some(v) => Some(Cells(v, wide && IsArithmetic(op)))
       case None => None)
    case Bits(op, wide) =>
      var w := Width(wide);
      Some(Cells(Bitwise(op, wide, Value(popped[..w], wide), Value(popped[w..], wide)), wide))
    case Inv(wide) => Some(Cells(-popped[0] - 1, wide))
    case Negate(wide) => Some(Cells(Wrap(wide, -Value(popped, wide)), wide))
    case Cpz(wide) => Some(Cells(Truth(Value(popped, wide) == 0), wide))
    case IntToLong => Some(Cells(popped[0], true))
    case LongToInt => Some([Low(Value(popped, true))])
  }

  function Pushes(f: Function): nat {
    match f
    case Operator(op, wide) => Width(wide && IsArithmetic(op))
    case Bits(_, wide) => Width(wide)
    case Inv(wide) => Width(wide)
    case Negate(wide) => Width(wide)
    case Cpz(wide) => Width(wide)
    case IntToLong => 2
    case LongToInt => 1
  }

  // INV.64 complements its operand exactly when the high cell only repeats the low one's
  // sign.
  lemma InvertsExact(low: int, high: int)
    requires Is32(low) && Is32(high)
    ensures Results(Inv(true), [low, high]) == Some(Cells(-Value([low, high], true) - 1, true))
       <==> high == (if low < 0 then -1 else 0)
  {
    var written, wanted := -low - 1, -Value([low, high], true) - 1;
    JoinSplits(written);
    JoinSplits(wanted);
    assert Unsigned(low) == if low < 0 then low + TWO32 else low;
    if Cells(written, true) == Cells(wanted, true) { assert written == wanted; }
  }
}
