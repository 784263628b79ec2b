// The binary form of instructions: what each BinaryInstruction constructor of the
// assembler stores, the bytes written for it, and the packed layouts through which
// the virtual machine reads them back.

module Encoding {

  type Bytes = seq<bv8>

  function Widen(w: bv32): bv64 { w as bv64 }

  // The word with the given unsigned value, put together from its halves.
  function Word(n: nat): (w: bv32)
    requires n < 0x1_0000_0000
    ensures w as nat == n
  {
    Halves(Half(n / 0x1_0000), Half(n % 0x1_0000))
  }

  function Half(n: nat): (w: bv16)
    requires n < 0x1_0000
    ensures w as nat == n
  {
    Octets(Octet(n / 0x100), Octet(n % 0x100))
  }

  function Octet(n: nat): (w: bv8)
    requires n < 0x100
    ensures w as nat == n
  {
    Nibbles(Nibble(n / 0x10), Nibble(n % 0x10))
  }

  function Nibble(n: nat): (w: bv4)
    requires n < 0x10
    ensures w as nat == n
  {
    n as bv4
  }

  function Halves(high: bv16, low: bv16): (w: bv32)
    ensures w as nat == low as nat + 0x1_0000 * (high as nat)
  {
    var w := low as bv32 | (high as bv32 << 16);
    HalvesValue(high, low, w);
    w
  }

  lemma HalvesValue(high: bv16, low: bv16, w: bv32)
    requires w == low as bv32 | (high as bv32 << 16)
    ensures w as nat == low as nat + 0x1_0000 * (high as nat)
  {
  }

  function Octets(high: bv8, low: bv8): (w: bv16)
    ensures w as nat == low as nat + 0x100 * (high as nat)
  {
    var w := low as bv16 | (high as bv16 << 8);
    OctetsValue(high, low, w);
    w
  }

  lemma OctetsValue(high: bv8, low: bv8, w: bv16)
    requires w == low as bv16 | (high as bv16 << 8)
    ensures w as nat == low as nat + 0x100 * (high as nat)
  {
  }

  function Nibbles(high: bv4, low: bv4): (w: bv8)
    ensures w as nat == low as nat + 0x10 * (high as nat)
  {
    var w := low as bv8 | (high as bv8 << 4);
    NibblesValue(high, low, w);
    w
  }

  lemma NibblesValue(high: bv4, low: bv4, w: bv8)
    requires w == low as bv8 | (high as bv8 << 4)
    ensures w as nat == low as nat + 0x10 * (high as nat)
  {
  }

  // The double word put together from its halves.
  function DoubleWord(high: bv32, low: bv32): (w: bv64)
    ensures w as nat == low as nat + 0x1_0000_0000 * (high as nat)
  {
    var w := low as bv64 | (high as bv64 << 32);
    DoubleWordValue(high, low, w);
    w
  }

  lemma DoubleWordValue(high: bv32, low: bv32, w: bv64)
    requires w == low as bv64 | (high as bv64 << 32)
    ensures w as nat == low as nat + 0x1_0000_0000 * (high as nat)
  {
  }

  // The opcode and three little-endian operand words (assembler/encoder.hpp:37-40).
  datatype BinaryInstruction = BinaryInstruction(opcode: bv8, w0: bv32, w1: bv32, w2: bv32)

  // The operands of one constructor overload.
  datatype Operands =
    | Nothing
    | A(a: bv8)
    | AB(a: bv8, b: bv8)
    | ABC(a: bv8, b: bv8, c: bv8)
    | C32(c32: bv32)
    | C64(c64: bv64)
    | A32(a: bv8, c32: bv32)
    | A64(a: bv8, c64: bv64)
    | AB32(a: bv8, b: bv8, c32: bv32)
    | AB64(a: bv8, b: bv8, c64: bv64)

  datatype Shape = S0 | SA | SAB | SABC | S32 | S64 | SA32 | SA64 | SAB32 | SAB64

  function ShapeOf(o: Operands): Shape {
    match o
    case Nothing => S0
    case A(_) => SA
    case AB(_, _) => SAB
    case ABC(_, _, _) => SABC
    case C32(_) => S32
    case C64(_) => S64
    case A32(_, _) => SA32
    case A64(_, _) => SA64
    case AB32(_, _, _) => SAB32
    case AB64(_, _, _) => SAB64
  }

  // The final binary size the constructors' comments give.
  function Size(s: Shape): (n: nat)
    ensures 1 <= n <= 11
  {
    match s
    case S0 => 1
    case SA => 2
    case SAB => 3
    case SABC => 4
    case S32 => 5
    case SA32 => 6
    case SAB32 => 7
    case S64 => 9
    case SA64 => 10
    case SAB64 => 11
  }

  function Low32(x: bv64): bv32 { (x & 0xFFFF_FFFF) as bv32 }

  function Low8(x: bv64): bv8 { (x & 0xFF) as bv8 }

  // The two words of a 64-bit operand standing alone (131-137).
  function Lower(c: bv64): bv32 { Low32(c & 0x0000_0000_FFFF_FFFF) }

  function Upper(c: bv64): bv32 { Low32((c & 0xFFFF_FFFF_0000_0000) >> 32) }

  // The three words a 64-bit operand is spread over behind one register (110-118) and
  // behind two (186-195).
  function Begin1(a: bv8, c: bv64): bv32 { a as bv32 | Low32((c << 8) & 0xFFFF_FF00) }

  function Middle1(c: bv64): bv32 { Low32((c & 0x00FF_FFFF_FF00_0000) >> 24) }

  function End1(c: bv64): bv32 { Low32((c & 0xFF00_0000_0000_0000) >> 56) }

  function Begin2(a: bv8, b: bv8, c: bv64): bv32 {
    a as bv32 | ((b as bv32 << 8) & 0x0000_FF00) | Low32((c << 16) & 0xFFFF_0000)
  }

  function Middle2(c: bv64): bv32 { Low32(c >> 16) }

  function End2(c: bv64): bv32 { Low32((c >> 48) & 0x0000_FFFF) }

  // What the constructors store, shift by shift and mask by mask.
  function Construct(opcode: bv8, o: Operands): (i: BinaryInstruction)
    ensures i.opcode == opcode
  {
    match o
    case Nothing => BinaryInstruction(opcode, 0, 0, 0)
    case A(a) => BinaryInstruction(opcode, a as bv32, 0, 0)
    case AB(a, b) =>
      BinaryInstruction(opcode, a as bv32 | ((b as bv32 << 8) & 0x0000_FF00), 0, 0)
    case ABC(a, b, c) =>
      BinaryInstruction(opcode,
                        a as bv32 | ((b as bv32 << 8) & 0x0000_FF00) | ((c as bv32 << 16) & 0x00FF_0000), 0, 0)
    case A32(a, c) =>
      BinaryInstruction(opcode, a as bv32 | ((c << 8) & 0xFFFF_FF00), (c & 0xFF00_0000) >> 24, 0)
    case A64(a, c) => BinaryInstruction(opcode, Begin1(a, c), Middle1(c), End1(c))
    case C32(c) => BinaryInstruction(opcode, c, 0, 0)
    case C64(c) => BinaryInstruction(opcode, Lower(c), Upper(c), 0)
    case AB32(a, b, c) =>
      BinaryInstruction(opcode,
                        a as bv32 | ((b as bv32 << 8) & 0x0000_FF00) | ((c << 16) & 0xFFFF_0000),
                        (c >> 16) & 0x0000_FFFF, 0)
    case AB64(a, b, c) => BinaryInstruction(opcode, Begin2(a, b, c), Middle2(c), End2(c))
  }

  // A word as it lies in a little-endian machine's memory.
  function WordBytes(w: bv32): (bytes: Bytes)
    ensures |bytes| == 4
  {
    [Byte0(w), Byte1(w), Byte2(w), Byte3(w)]
  }

  function Byte0(w: bv32): bv8 { (w & 0xFF) as bv8 }

  function Byte1(w: bv32): bv8 { ((w >> 8) & 0xFF) as bv8 }

  function Byte2(w: bv32): bv8 { ((w >> 16) & 0xFF) as bv8 }

  function Byte3(w: bv32): bv8 { ((w >> 24) & 0xFF) as bv8 }

  // The opcode byte, then the first `size - 1` bytes of the operand words
  // (assembler/assembler.cpp:528-531).
  function Emit(i: BinaryInstruction, size: nat): (bytes: Bytes)
    requires 1 <= size <= 13
    ensures |bytes| == size && bytes[0] == i.opcode
  {
    ([i.opcode] + WordBytes(i.w0) + WordBytes(i.w1) + WordBytes(i.w2))[..size]
  }

  function Assembled(opcode: bv8, o: Operands): Bytes {
    Emit(Construct(opcode, o), Size(ShapeOf(o)))
  }

  function Join32(b0: bv8, b1: bv8, b2: bv8, b3: bv8): bv32 {
    (b0 as bv32) | (b1 as bv32 << 8) | (b2 as bv32 << 16) | (b3 as bv32 << 24)
  }

  function Join64(low: bv32, high: bv32): bv64 { (low as bv64) | (high as bv64 << 32) }

  // Little-endian loads from the packed instruction word.
  function Read32(raw: Bytes, at: nat): bv32
    requires at + 4 <= |raw|
  {
    Join32(raw[at], raw[at + 1], raw[at + 2], raw[at + 3])
  }

  function Read64(raw: Bytes, at: nat): bv64
    requires at + 8 <= |raw|
  {
    Join64(Read32(raw, at), Read32(raw, at + 4))
  }

  // In numbers: the byte at the lowest address counts least.
  lemma LittleEndian(raw: Bytes, at: nat)
    requires at + 4 <= |raw|
    ensures Read32(raw, at) as nat ==
            raw[at] as nat + 0x100 * (raw[at + 1] as nat) + 0x1_0000 * (raw[at + 2] as nat)
            + 0x100_0000 * (raw[at + 3] as nat)
    ensures at + 8 <= |raw| ==> Read64(raw, at) as nat
                                == Read32(raw, at) as nat + 0x1_0000_0000 * (Read32(raw, at + 4) as nat)
  {
    JoinIsHalves(raw[at], raw[at + 1], raw[at + 2], raw[at + 3]);
    if at + 8 <= |raw| {
      JoinIsDouble(Read32(raw, at), Read32(raw, at + 4));
    }
  }

  lemma JoinIsHalves(b0: bv8, b1: bv8, b2: bv8, b3: bv8)
    ensures Join32(b0, b1, b2, b3) as nat ==
            b0 as nat + 0x100 * (b1 as nat) + 0x1_0000 * (b2 as nat) + 0x100_0000 * (b3 as nat)
  {
    hide Join32, Halves, Octets;
    JoinByOctets(b0, b1, b2, b3);
    var high, low := Octets(b3, b2), Octets(b1, b0);
    assert high as nat == b2 as nat + 0x100 * (b3 as nat) && low as nat == b0 as nat + 0x100 * (b1 as nat);
    assert Halves(high, low) as nat == low as nat + 0x1_0000 * (high as nat);
  }

  lemma JoinByOctets(b0: bv8, b1: bv8, b2: bv8, b3: bv8)
    ensures Join32(b0, b1, b2, b3) == Halves(Octets(b3, b2), Octets(b1, b0))
  {
    var high, low := b2 as bv16 | (b3 as bv16 << 8), b0 as bv16 | (b1 as bv16 << 8);
    OctetsJoin(b0, b1, b2, b3, high, low);
  }

  lemma OctetsJoin(b0: bv8, b1: bv8, b2: bv8, b3: bv8, high: bv16, low: bv16)
    requires high == b2 as bv16 | (b3 as bv16 << 8) && low == b0 as bv16 | (b1 as bv16 << 8)
    ensures Join32(b0, b1, b2, b3) == low as bv32 | (high as bv32 << 16)
  {
  }

  lemma JoinIsDouble(low: bv32, high: bv32)
    ensures Join64(low, high) as nat == low as nat + 0x1_0000_0000 * (high as nat)
  {
    var w := DoubleWord(high, low);
    assert w as nat == low as nat + 0x1_0000_0000 * (high as nat);
  }

  // The operands the packed layouts of Instr_t read from a fetched 13-byte word
  // (vm/vm.c:89-205).
  function Decode(s: Shape, raw: Bytes): Operands
    requires |raw| == 13
  {
    match s
    case S0 => Nothing
    case SA => A(raw[1])
    case SAB => AB(raw[1], raw[2])
    case SABC => ABC(raw[1], raw[2], raw[3])
    case S32 => C32(Read32(raw, 1))
    case S64 => C64(Read64(raw, 1))
    case SA32 => A32(raw[1], Read32(raw, 2))
    case SA64 => A64(raw[1], Read64(raw, 2))
    case SAB32 => AB32(raw[1], raw[2], Read32(raw, 3))
    case SAB64 => AB64(raw[1], raw[2], Read64(raw, 3))
  }

  function OperandBytes(i: BinaryInstruction): (bytes: Bytes)
    ensures |bytes| == 12
  {
    WordBytes(i.w0) + WordBytes(i.w1) + WordBytes(i.w2)
  }

  lemma OperandByte(i: BinaryInstruction, size: nat, behind: Bytes, k: nat)
    requires 1 <= size <= 13 && 1 <= k < size
    ensures (Emit(i, size) + behind)[k] == OperandBytes(i)[k - 1]
  {
    assert [i.opcode] + WordBytes(i.w0) + WordBytes(i.w1) + WordBytes(i.w2) == [i.opcode] + OperandBytes(i);
  }

  // Four bytes that begin one or two bytes into a word and end in the next.
  function Cross1(w: bv32, x: bv32): bv32 { (w >> 8) | (x << 24) }

  function Cross2(w: bv32, x: bv32): bv32 { (w >> 16) | (x << 16) }

  // Operand words cut at a byte boundary and joined again.
  lemma Shifted0(w: bv32)
    ensures Join32(Byte0(w), Byte1(w), Byte2(w), Byte3(w)) == w
  {
  }

  lemma Shifted1(w: bv32, x: bv32)
    ensures Join32(Byte1(w), Byte2(w), Byte3(w), Byte0(x)) == Cross1(w, x)
  {
  }

  lemma Shifted2(w: bv32, x: bv32)
    ensures Join32(Byte2(w), Byte3(w), Byte0(x), Byte1(x)) == Cross2(w, x)
  {
  }

  predicate Carries(raw: Bytes, i: BinaryInstruction, size: nat) {
    |raw| == 13 && 1 <= size <= 13 && forall k :: 1 <= k < size ==> raw[k] == OperandBytes(i)[k - 1]
  }

  // The constructors put each operand where the packed layout reads it.
  lemma Loads(raw: Bytes, i: BinaryInstruction, size: nat)
    requires Carries(raw, i, size)
    ensures size >= 2 ==> raw[1] == Byte0(i.w0)
    ensures size >= 3 ==> raw[2] == Byte1(i.w0)
    ensures size >= 4 ==> raw[3] == Byte2(i.w0)
    ensures size >= 5 ==> Read32(raw, 1) == i.w0
    ensures size >= 9 ==> Read32(raw, 5) == i.w1
    ensures size >= 6 ==> Read32(raw, 2) == Cross1(i.w0, i.w1)
    ensures size >= 10 ==> Read32(raw, 6) == Cross1(i.w1, i.w2)
    ensures size >= 7 ==> Read32(raw, 3) == Cross2(i.w0, i.w1)
    ensures size >= 11 ==> Read32(raw, 7) == Cross2(i.w1, i.w2)
  {
    hide Join32, Byte0, Byte1, Byte2, Byte3;
    Shifted0(i.w0);
    Shifted0(i.w1);
    Shifted1(i.w0, i.w1);
    Shifted1(i.w1, i.w2);
    Shifted2(i.w0, i.w1);
    Shifted2(i.w1, i.w2);
  }

  // The shifts and masks of the constructors lose no bit of an operand, whichever
  // words it crosses.
  lemma Bytes3(a: bv8, b: bv8, c: bv8)
    ensures Byte0(a as bv32) == a
    ensures var w := a as bv32 | ((b as bv32 << 8) & 0x0000_FF00); Byte0(w) == a && Byte1(w) == b
    ensures var w := a as bv32 | ((b as bv32 << 8) & 0x0000_FF00) | ((c as bv32 << 16) & 0x00FF_0000);
            Byte0(w) == a && Byte1(w) == b && Byte2(w) == c
  {
  }

  lemma Across32(a: bv8, c: bv32, w0: bv32, w1: bv32)
    requires w0 == a as bv32 | ((c << 8) & 0xFFFF_FF00)
    requires w1 == (c & 0xFF00_0000) >> 24
    ensures Byte0(w0) == a && Cross1(w0, w1) == c
  {
  }

  lemma Across32Two(a: bv8, b: bv8, c: bv32, w0: bv32, w1: bv32)
    requires w0 == a as bv32 | ((b as bv32 << 8) & 0x0000_FF00) | ((c << 16) & 0xFFFF_0000)
    requires w1 == (c >> 16) & 0x0000_FFFF
    ensures Byte0(w0) == a && Byte1(w0) == b && Cross2(w0, w1) == c
  {
  }

  lemma Across64(a: bv8, c: bv64)
    ensures Byte0(Begin1(a, c)) == a
    ensures Join64(Cross1(Begin1(a, c), Middle1(c)), Cross1(Middle1(c), End1(c))) == c
  {
  }

  lemma Across64Two(a: bv8, b: bv8, c: bv64)
    ensures Byte0(Begin2(a, b, c)) == a && Byte1(Begin2(a, b, c)) == b
    ensures Join64(Cross2(Begin2(a, b, c), Middle2(c)), Cross2(Middle2(c), End2(c))) == c
  {
  }

  lemma Whole64(c: bv64)
    ensures Join64(Lower(c), Upper(c)) == c
  {
  }

  lemma Placed(opcode: bv8, o: Operands, raw: Bytes)
    requires Carries(raw, Construct(opcode, o), Size(ShapeOf(o)))
    ensures Decode(ShapeOf(o), raw) == o
  {
    match o
    case Nothing =>
    case A(a) => PlacedBytes(opcode, o, raw);
    case AB(a, b) => PlacedBytes(opcode, o, raw);
    case ABC(a, b, c) => PlacedBytes(opcode, o, raw);
    case C32(c) => Placed32(opcode, o, raw);
    case C64(c) => Placed64(opcode, o, raw);
    case A32(a, c) => Placed32(opcode, o, raw);
    case A64(a, c) => Placed64(opcode, o, raw);
    case AB32(a, b, c) => Placed32(opcode, o, raw);
    case AB64(a, b, c) => Placed64(opcode, o, raw);
  }

  lemma PlacedBytes(opcode: bv8, o: Operands, raw: Bytes)
    requires o.A? || o.AB? || o.ABC?
    requires Carries(raw, Construct(opcode, o), Size(ShapeOf(o)))
    ensures Decode(ShapeOf(o), raw) == o
  {
    hide Carries, Byte0, Byte1, Byte2, Construct, Decode;
    var i := Construct(opcode, o);
    assert |raw| == 13 by { CarriesThirteen(raw, i, Size(ShapeOf(o))); }
    Loads(raw, i, Size(ShapeOf(o)));
    match o
    case A(a) =>
      OneByte(opcode, a);
      DecodesBytes(raw, a, 0, 0);
    case AB(a, b) =>
      TwoBytes(opcode, a, b);
      DecodesBytes(raw, a, b, 0);
    case ABC(a, b, c) =>
      ThreeBytes(opcode, a, b, c);
      DecodesBytes(raw, a, b, c);
  }

  lemma CarriesThirteen(raw: Bytes, i: BinaryInstruction, size: nat)
    requires Carries(raw, i, size)
    ensures |raw| == 13
  {
  }

  lemma OneByte(opcode: bv8, a: bv8)
    ensures Byte0(Construct(opcode, A(a)).w0) == a
  {
    hide Byte1, Byte2;
    Bytes3(a, 0, 0);
  }

  lemma TwoBytes(opcode: bv8, a: bv8, b: bv8)
    ensures Byte0(Construct(opcode, AB(a, b)).w0) == a && Byte1(Construct(opcode, AB(a, b)).w0) == b
  {
    hide Byte0, Byte1, Byte2;
    Bytes3(a, b, 0);
  }

  lemma ThreeBytes(opcode: bv8, a: bv8, b: bv8, c: bv8)
    ensures var w := Construct(opcode, ABC(a, b, c)).w0; Byte0(w) == a && Byte1(w) == b && Byte2(w) == c
  {
    hide Byte0, Byte1, Byte2;
    Bytes3(a, b, c);
  }

  lemma DecodesBytes(raw: Bytes, a: bv8, b: bv8, c: bv8)
    requires |raw| == 13 && raw[1] == a
    ensures Decode(ShapeOf(A(a)), raw) == A(a)
    ensures raw[2] == b ==> Decode(ShapeOf(AB(a, b)), raw) == AB(a, b)
    ensures raw[2] == b && raw[3] == c ==> Decode(ShapeOf(ABC(a, b, c)), raw) == ABC(a, b, c)
  {
    hide Read32, Read64;
  }

  lemma Placed32(opcode: bv8, o: Operands, raw: Bytes)
    requires o.C32? || o.A32? || o.AB32?
    requires Carries(raw, Construct(opcode, o), Size(ShapeOf(o)))
    ensures Decode(ShapeOf(o), raw) == o
  {
    hide Carries, Byte0, Byte1, Read32, Cross1, Cross2;
    var i := Construct(opcode, o);
    Loads(raw, i, Size(ShapeOf(o)));
    match o
    case C32(c) =>
    case A32(a, c) => Across32(a, c, i.w0, i.w1);
    case AB32(a, b, c) => Across32Two(a, b, c, i.w0, i.w1);
  }

  lemma Placed64(opcode: bv8, o: Operands, raw: Bytes)
    requires o.C64? || o.A64? || o.AB64?
    requires Carries(raw, Construct(opcode, o), Size(ShapeOf(o)))
    ensures Decode(ShapeOf(o), raw) == o
  {
    hide Carries, Byte0, Byte1, Read32, Join64, Cross1, Cross2, Low32;
    hide Lower, Upper, Begin1, Middle1, End1, Begin2, Middle2, End2;
    Loads(raw, Construct(opcode, o), Size(ShapeOf(o)));
    match o
    case C64(c) => Whole64(c);
    case A64(a, c) => Across64(a, c);
    case AB64(a, b, c) => Across64Two(a, b, c);
  }

  // What lies behind the instruction in the fetched word does not matter.
  lemma RoundTrip(opcode: bv8, o: Operands, behind: Bytes)
    requires |Assembled(opcode, o)| + |behind| == 13
    ensures (Assembled(opcode, o) + behind)[0] == opcode
    ensures Decode(ShapeOf(o), Assembled(opcode, o) + behind) == o
  {
    var bytes := Assembled(opcode, o);
    assert bytes[0] == opcode;
    hide Construct, Decode, OperandBytes, Emit;
    forall k | 1 <= k < Size(ShapeOf(o))
      ensures (bytes + behind)[k] == OperandBytes(Construct(opcode, o))[k - 1]
    {
      OperandByte(Construct(opcode, o), Size(ShapeOf(o)), behind, k);
    }
    Placed(opcode, o, bytes + behind);
  }

  // The 13 bytes the interpreter copies at an address; those past the end of program
  // memory are whatever lies there.
  function Fetch(memory: Bytes, beyond: nat -> bv8, at: nat): (raw: Bytes)
    ensures |raw| == 13
  {
    seq(13, k requires 0 <= k < 13 => if at + k < |memory| then memory[at + k] else beyond(at + k))
  }

  lemma FetchSplits(memory: Bytes, beyond: nat -> bv8, at: nat, size: nat)
    requires size <= 13 && at + size <= |memory|
    ensures Fetch(memory, beyond, at) == memory[at..at + size] + Fetch(memory, beyond, at)[size..]
  {
  }

  datatype Instruction = Instruction(opcode: bv8, operands: Operands)

  function Stream(list: seq<Instruction>): Bytes {
    if list == [] then [] else Assembled(list[0].opcode, list[0].operands) + Stream(list[1..])
  }

  // Reading `n` instructions one after the other; `shapes` is the layout of each opcode.
  function DecodeStream(shapes: bv8 -> Shape, memory: Bytes, beyond: nat -> bv8, at: nat, n: nat): seq<Instruction>
    decreases n
  {
    if n == 0 then [] else
    var raw := Fetch(memory, beyond, at);
    var s := shapes(raw[0]);
    [Instruction(raw[0], Decode(s, raw))] + DecodeStream(shapes, memory, beyond, at + Size(s), n - 1)
  }

  // A program decodes to the instructions it was assembled from, wherever it lies in
  // memory and whatever follows it.
  lemma {:induction false} StreamRoundTrip(shapes: bv8 -> Shape, list: seq<Instruction>, memory: Bytes,
                                           beyond: nat -> bv8, at: nat)
    requires forall i :: i in list ==> shapes(i.opcode) == ShapeOf(i.operands)
    requires at + |Stream(list)| <= |memory| && memory[at..at + |Stream(list)|] == Stream(list)
    ensures DecodeStream(shapes, memory, beyond, at, |list|) == list
    decreases |list|
  {
    hide Assembled, Fetch, Decode;
    if list != [] {
      var i := list[0];
      var bytes := Assembled(i.opcode, i.operands);
      var size := Size(ShapeOf(i.operands));
      assert |bytes| == size by { AssembledSize(i.opcode, i.operands); }
      var rest := Stream(list[1..]);
      assert memory[at..at + size] == bytes by {
        assert memory[at..at + |Stream(list)|][..size] == bytes;
      }
      FetchSplits(memory, beyond, at, size);
      var raw := Fetch(memory, beyond, at);
      RoundTrip(i.opcode, i.operands, raw[size..]);
      assert memory[at + size..at + size + |rest|] == rest by {
        assert memory[at..at + |Stream(list)|][size..] == rest;
      }
      StreamRoundTrip(shapes, list[1..], memory, beyond, at + size);
    }
  }

  lemma AssembledSize(opcode: bv8, o: Operands)
    ensures |Assembled(opcode, o)| == Size(ShapeOf(o))
  {
  }
}
