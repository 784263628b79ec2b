// The stack instruction set as its three sources know it: the operand each
// translation function encodes, the byte size the assembler's table gives, and the
// distance the interpreter advances. All three are indexed by opcode.

module StackSet {
  import opened Words
  import opened Encoding
  import opened Types

  const LAST_OPCODE: bv8 := 0x75

  // DECL_INSTR and DECL_STACK_INSTR.
  function DeclaredShape(opcode: bv8): Shape {
    if opcode == 0x02 || opcode == 0x03 || opcode == 0x09 || opcode == 0x0D || opcode == 0x11
       || opcode == 0x55 || opcode == 0x56 || opcode == 0x6A || opcode == 0x6C || 0x72 <= opcode <= 0x74 then S32
    else if 0x04 <= opcode <= 0x08 || 0x13 <= opcode <= 0x1A || opcode == 0x65 || opcode == 0x69 then SA
    else if opcode == 0x0A || opcode == 0x0E || opcode == 0x12 || opcode == 0x6B || opcode == 0x6D then S64
    else S0
  }

  // LoadInstructionSet: LOAD_INSTR and LOAD_STACK_INSTR.
  function ByteSize(opcode: bv8): (n: nat)
    ensures 1 <= n <= 9
  {
    if opcode == 0x02 || opcode == 0x03 || opcode == 0x09 || opcode == 0x0D || opcode == 0x0E || opcode == 0x11
       || opcode == 0x12 || opcode == 0x55 || opcode == 0x56 || opcode == 0x6A || opcode == 0x6C
       || 0x72 <= opcode <= 0x74 then 5
    else if 0x04 <= opcode <= 0x08 || 0x13 <= opcode <= 0x1A || opcode == 0x65 || opcode == 0x69 then 2
    else if opcode == 0x0A || opcode == 0x6B || opcode == 0x6D then 9
    else 1
  }

  // GetInstructionArgCount: an entry has an argument when it was loaded with a maximum.
  function ArgCount(opcode: bv8): nat { if ByteSize(opcode) > 1 then 1 else 0 }

  // What the interpreter adds to `instrPtr`; for CALL, the distance of the return
  // address. EXIT, JMP, RET and JMPI add nothing.
  function Advance(opcode: bv8): nat {
    if opcode == 0x01 || opcode == 0x02 || 0x04 <= opcode <= 0x06 || opcode == 0x59 then 0
    else if opcode == 0x0A || opcode == 0x6B || opcode == 0x6D then 9
    else if opcode == 0x03 || opcode == 0x09 || opcode == 0x0D || opcode == 0x0E || opcode == 0x11 || opcode == 0x12
            || opcode == 0x55 || opcode == 0x56 || opcode == 0x6A || opcode == 0x6C || 0x72 <= opcode <= 0x74 then 5
    else if opcode == 0x07 || opcode == 0x08 || 0x13 <= opcode <= 0x1A || opcode == 0x65 || opcode == 0x69 then 2
    else 1
  }

  // How many bytes behind the opcode the interpreter's operand reads touch.
  function BytesRead(opcode: bv8): nat {
    if opcode == 0x0A || opcode == 0x6B || opcode == 0x6D then 8
    else if opcode == 0x02 || opcode == 0x03 || opcode == 0x09 || opcode == 0x0D || opcode == 0x0E || opcode == 0x11
            || opcode == 0x12 || opcode == 0x55 || opcode == 0x56 || opcode == 0x6A || opcode == 0x6C
            || 0x72 <= opcode <= 0x74 then 4
    else if 0x04 <= opcode <= 0x08 || 0x13 <= opcode <= 0x1A || opcode == 0x65 || opcode == 0x69 then 1
    else 0
  }

  // The tables agree on every opcode; only the two 64-bit indexed memory accesses
  // declare a wider operand than they store.
  lemma TablesAgree(opcode: bv8)
    ensures Advance(opcode) != 0 ==> Advance(opcode) == ByteSize(opcode)
    ensures 1 + BytesRead(opcode) == ByteSize(opcode)
    ensures ArgCount(opcode) <= 1 && (ArgCount(opcode) == 1 <==> BytesRead(opcode) > 0)
    ensures opcode != 0x0E && opcode != 0x12 <==> Size(DeclaredShape(opcode)) == ByteSize(opcode)
    ensures ByteSize(opcode) <= Size(DeclaredShape(opcode))
  {
  }

  //// Operands ////

  // The cast in a translation function.
  function Translate(opcode: bv8, argument: bv64): Operands {
    match DeclaredShape(opcode)
    case SA => A(Low8(argument))
    case S32 => C32(Low32(argument))
    case S64 => C64(argument)
    case _ => Nothing
  }

  function InstructionBytes(opcode: bv8, argument: bv64): (bytes: Bytes)
    ensures |bytes| == ByteSize(opcode) && bytes[0] == opcode
  {
    Emit(Construct(opcode, Translate(opcode, argument)), ByteSize(opcode))
  }

  // Reinterpreting stored bits as a signed integer.
  function Signed32(w: bv32): (v: int)
    ensures Is32(v)
  {
    Wrap32(w as int)
  }

  function Signed64(w: bv64): (v: int)
    ensures Is64(v)
  {
    Wrap64(w as int)
  }

  datatype BitOp = BOR | BXOR | BAND

  datatype Area = Locals | Arguments

  // What an instruction computes from the cells it pops.
  datatype Function =
    | Operator(op: BinaryOp, wide: bool)
    | Bits(bitOp: BitOp, wide: bool)
    | Inv(wide: bool)
    | Negate(wide: bool)
    | Cpz(wide: bool)
    | IntToLong
    | LongToInt

  datatype Operation =
    | Nop
    | Exit
    | Jump(to: nat)
    | Branch(onZero: bool, to: nat)
    | Call(to: nat)
    | Return(argBytes: nat, width: nat)
    | SysCall(id: nat)
    | SysArg(flags: nat)
    | Push(cells: seq<int>)
    | Load(area: Area, offset: nat, width: nat)
    | Store(area: Area, offset: nat, width: nat)
    | Compute(f: Function)
    | BranchTo(onZero: bool)   // BRIZ, BRINZ: the target lies on the stack
    | JumpTo                   // JMPI
    | External                 // floating point, strings and the heap
    | Unknown

  // ADD ADD.64 ADD.F ADD.F64, SUB ... and so on: four forms of each operator.
  function OperatorForm(op: BinaryOp, form: bv8): Operation {
    if form == 0 then Compute(Operator(op, false))
    else if form == 1 then Compute(Operator(op, true))
    else External
  }

  function Arithmetics(opcode: bv8): (o: Operation)
    requires 0x1B <= opcode <= 0x2A
    ensures o.Compute? || o.External?
  {
    if opcode <= 0x1E then OperatorForm(ADD, opcode - 0x1B)
    else if opcode <= 0x22 then OperatorForm(SUB, opcode - 0x1F)
    else if opcode <= 0x26 then OperatorForm(MUL, opcode - 0x23)
    else OperatorForm(DIV, opcode - 0x27)
  }

  function BitStuff(opcode: bv8): (o: Operation)
    requires 0x2B <= opcode <= 0x3A
    ensures o.Compute? || o.External?
  {
    if opcode == 0x2B then Compute(Inv(false))
    else if opcode == 0x2C then Compute(Inv(true))
    else if opcode == 0x2D then Compute(Negate(false))
    else if opcode == 0x2E then Compute(Negate(true))
    else if opcode <= 0x30 then External
    else if opcode == 0x31 then Compute(Bits(BOR, false))
    else if opcode == 0x32 then Compute(Bits(BOR, true))
    else if opcode == 0x33 then Compute(Bits(BXOR, false))
    else if opcode == 0x34 then Compute(Bits(BXOR, true))
    else if opcode == 0x35 then Compute(Bits(BAND, false))
    else if opcode == 0x36 then Compute(Bits(BAND, true))
    else if opcode == 0x37 then Compute(Operator(OR, false))
    else if opcode == 0x38 then Compute(Operator(AND, false))
    else if opcode == 0x39 then Compute(Cpz(false))
    else Compute(Cpz(true))
  }

  function Comparisons(opcode: bv8): (o: Operation)
    requires 0x3B <= opcode <= 0x54
    ensures o.Compute? || o.External?
  {
    if opcode <= 0x3E then OperatorForm(EQ, opcode - 0x3B)
    else if opcode <= 0x42 then OperatorForm(NEQ, opcode - 0x3F)
    else if opcode <= 0x46 then OperatorForm(GT, opcode - 0x43)
    else if opcode <= 0x4A then OperatorForm(LT, opcode - 0x47)
    else if opcode <= 0x4E then OperatorForm(GEQ, opcode - 0x4B)
    else if opcode <= 0x52 then OperatorForm(LEQ, opcode - 0x4F)
    else External
  }

  function Accesses(opcode: bv8, offset: nat): (o: Operation)
    requires 0x13 <= opcode <= 0x1A
    ensures (o.Load? || o.Store?) && 1 <= o.width <= 2 && o.offset == offset
  {
    if opcode == 0x13 then Load(Locals, offset, 1)
    else if opcode == 0x14 then Load(Locals, offset, 2)
    else if opcode == 0x15 then Load(Arguments, offset, 1)
    else if opcode == 0x16 then Load(Arguments, offset, 2)
    else if opcode == 0x17 then Store(Locals, offset, 1)
    else if opcode == 0x18 then Store(Locals, offset, 2)
    else if opcode == 0x19 then Store(Arguments, offset, 1)
    else Store(Arguments, offset, 2)
  }

  function General(opcode: bv8, c8: bv8, c32: bv32): (o: Operation)
    requires opcode <= 0x08
    ensures o.Call? <==> opcode == 0x03
  {
    if opcode == 0x00 then Nop
    else if opcode == 0x01 then Exit
    else if opcode == 0x02 then Jump(c32 as nat)
    else if opcode == 0x03 then Call(c32 as nat)
    else if opcode == 0x04 then Return(c8 as nat, 0)
    else if opcode == 0x05 then Return(c8 as nat, 1)
    else if opcode == 0x06 then Return(c8 as nat, 2)
    else if opcode == 0x07 then SysCall(c8 as nat)
    else SysArg(c8 as nat)
  }

  // The case of the dispatch an opcode selects, with the operand that case reads out
  // of the 8, 32 and 64 bits behind the opcode.
  function Dispatch(opcode: bv8, c8: bv8, c32: bv32, c64: bv64): Operation {
    if opcode <= 0x08 then General(opcode, c8, c32)
    else if opcode == 0x09 then Push(Cells(Signed32(c32), false))
    else if opcode == 0x0A then Push(Cells(Signed64(c64), true))
    else if opcode <= 0x12 then External
    else if opcode <= 0x1A then Accesses(opcode, c8 as nat)
    else if opcode <= 0x2A then Arithmetics(opcode)
    else if opcode <= 0x3A then BitStuff(opcode)
    else if opcode <= 0x54 then Comparisons(opcode)
    else if opcode == 0x55 then Branch(true, c32 as nat)
    else if opcode == 0x56 then Branch(false, c32 as nat)
    else if opcode == 0x57 then BranchTo(true)
    else if opcode == 0x58 then BranchTo(false)
    else if opcode == 0x59 then JumpTo
    else if opcode == 0x5A then Compute(IntToLong)
    else if opcode == 0x5E then Compute(LongToInt)
    else if opcode <= LAST_OPCODE then External
    else Unknown
  }

  // The operation an instruction stands for.
  function Meaning(opcode: bv8, argument: bv64): Operation {
    Dispatch(opcode, Low8(argument), Low32(argument), argument)
  }

  //// Decoding ////

  // The two builds of the virtual machine.
  datatype Decoder = Union | Bitmask

  function Opcode(d: Decoder, raw: Bytes): bv8
    requires |raw| == 13
  {
    match d case Union => raw[0] case Bitmask => raw[0] & 0xFF
  }

  function DECODE_8(d: Decoder, raw: Bytes): bv8
    requires |raw| == 13
  {
    match d case Union => raw[1] case Bitmask => raw[1] & 0xFF
  }

  function DECODE_32(d: Decoder, raw: Bytes): bv32
    requires |raw| == 13
  {
    match d case Union => Read32(raw, 1) case Bitmask => Read32(raw, 1) & 0xFFFF_FFFF
  }

  function DECODE_64(d: Decoder, raw: Bytes): bv64
    requires |raw| == 13
  {
    match d case Union => Read64(raw, 1) case Bitmask => Read64(raw, 1) & 0xFFFF_FFFF_FFFF_FFFF
  }

  function DecodeOperation(d: Decoder, raw: Bytes): Operation
    requires |raw| == 13
  {
    Dispatch(Opcode(d, raw), DECODE_8(d, raw), DECODE_32(d, raw), DECODE_64(d, raw))
  }

  lemma DecodersAgree(raw: Bytes)
    requires |raw| == 13
    ensures Opcode(Union, raw) == Opcode(Bitmask, raw)
    ensures DecodeOperation(Union, raw) == DecodeOperation(Bitmask, raw)
  {
    hide Dispatch, Read32, Read64;
  }

  // Only the operand bytes inside the instruction matter.
  lemma DispatchReads(opcode: bv8, c8: bv8, c32: bv32, c64: bv64, argument: bv64)
    requires BytesRead(opcode) >= 1 ==> c8 == Low8(argument) || BytesRead(opcode) > 1
    requires BytesRead(opcode) >= 4 ==> c32 == Low32(argument) || BytesRead(opcode) > 4
    requires BytesRead(opcode) == 8 ==> c64 == argument
    ensures Dispatch(opcode, c8, c32, c64) == Meaning(opcode, argument)
  {
    hide Arithmetics, BitStuff, Comparisons, Low8, Low32, Signed32, Signed64;
  }

  // The operand words of an instruction, whatever its declared width.
  lemma StoredOperand(opcode: bv8, argument: bv64)
    ensures var i := Construct(opcode, Translate(opcode, argument));
            match DeclaredShape(opcode)
            case SA => Byte0(i.w0) == Low8(argument)
            case S32 => i.w0 == Low32(argument)
            case S64 => i.w0 == Low32(argument) && Join64(i.w0, i.w1) == argument
            case _ => true
  {
    match DeclaredShape(opcode)
    case SA => Bytes3(Low8(argument), 0, 0);
    case S64 => Whole64(argument); LowerIsLow(argument);
    case _ =>
  }

  lemma LowerIsLow(c: bv64)
    ensures Lower(c) == Low32(c)
  {
  }

  // Either decoder reads from an instruction's bytes the operation it was written for,
  // whatever lies behind them.
  lemma DecodesToMeaning(d: Decoder, opcode: bv8, argument: bv64, behind: Bytes)
    requires ByteSize(opcode) + |behind| == 13
    ensures Opcode(d, InstructionBytes(opcode, argument) + behind) == opcode
    ensures DecodeOperation(d, InstructionBytes(opcode, argument) + behind) == Meaning(opcode, argument)
  {
    var bytes := InstructionBytes(opcode, argument);
    var raw := bytes + behind;
    var i := Construct(opcode, Translate(opcode, argument));
    assert raw[0] == opcode;
    forall k | 1 <= k < ByteSize(opcode)
      ensures raw[k] == OperandBytes(i)[k - 1]
    {
      OperandByte(i, ByteSize(opcode), behind, k);
    }
    Loads(raw, i, ByteSize(opcode));
    StoredOperand(opcode, argument);
    TablesAgree(opcode);
    DecodersAgree(raw);
    ReadsMatch(opcode, argument, raw, i);
  }

  lemma ReadsMatch(opcode: bv8, argument: bv64, raw: Bytes, i: BinaryInstruction)
    requires |raw| == 13 && raw[0] == opcode
    requires ByteSize(opcode) >= 2 ==> raw[1] == Byte0(i.w0)
    requires ByteSize(opcode) >= 5 ==> Read32(raw, 1) == i.w0
    requires ByteSize(opcode) >= 9 ==> Read32(raw, 5) == i.w1
    requires match DeclaredShape(opcode)
             case SA => Byte0(i.w0) == Low8(argument)
             case S32 => i.w0 == Low32(argument)
             case S64 => i.w0 == Low32(argument) && Join64(i.w0, i.w1) == argument
             case _ => true
    ensures DecodeOperation(Union, raw) == Meaning(opcode, argument)
  {
    hide Dispatch, Read32, Low8, Low32, Byte0, Join64;
    TablesAgree(opcode);
    DispatchReads(opcode, raw[1], Read32(raw, 1), Read64(raw, 1), argument);
  }
}
