/** Block types, operators and their immediates: grammar and decoder. */
module Operators {
  import opened Bits
  import opened Decoded
  import opened Leb128

  datatype ValueType = I32 | I64 | F32 | F64 | V128 | FuncRef | ExternRef

  datatype BlockType = Empty | Value(valueType: ValueType) | FuncType(index: int)

  datatype BlockKind = PlainBlock | Loop | Forall | Exists | Assume | Unique

  datatype Opcode = Byte(b: byte) | Fc(sub: int)

  datatype Imm =
    | None
    | U32(a: int)
    | Pair(a: int, b: int)
    | Blk(ty: BlockType)
    | Targets(targets: seq<int>, default: int)
    | MemArg(align: int, offset: int, memory: int)
    | Const(v: int)

  datatype Operator =
    | Block(kind: BlockKind, ty: BlockType)
    | If(ty: BlockType)
    | Else
    | End
    | Br(depth: int)
    | BrIf(depth: int)
    | BrTable(targets: seq<int>, default: int)
    | Return
    | Plain(code: Opcode, imm: Imm)

  // ----- grammar -----

  /** The byte of a value type, section 5.3 of the WebAssembly Core Specification. */
  function TypeCode(t: ValueType): byte
  {
    match t
    case I32 => 0x7f
    case I64 => 0x7e
    case F32 => 0x7d
    case F64 => 0x7c
    case V128 => 0x7b
    case FuncRef => 0x70
    case ExternRef => 0x6f
  }

  ghost predicate IsBlockType(bytes: seq<byte>, ty: BlockType)
  {
    match ty
    case Empty => bytes == [0x40]
    case Value(t) => bytes == [TypeCode(t)]
    case FuncType(i) => 0 <= i && IsSigned(33, bytes, i)
  }

  /** A sequence of u32 encodings, one after the other. */
  ghost predicate IsVector(bytes: seq<byte>, vs: seq<int>)
    decreases vs
  {
    if vs == [] then bytes == []
    else exists k :: 0 <= k <= |bytes| && IsUnsigned(32, bytes[..k], vs[0]) && IsVector(bytes[k..], vs[1..])
  }

  ghost predicate IsTable(bytes: seq<byte>, ts: seq<int>, d: int, j: nat, k: nat)
  {
    && j <= k <= |bytes|
    && IsUnsigned(32, bytes[..j], |ts|) && |ts| <= 131072
    && IsVector(bytes[j..k], ts)
    && IsUnsigned(32, bytes[k..], d)
  }

  /** Bit 6 of the alignment field says that a memory index follows it. */
  ghost predicate IsMemArg(bytes: seq<byte>, align: int, offset: int, memory: int, j: nat, k: nat)
  {
    && j <= k <= |bytes| && 0 <= align < 64
    && (|| (j == k && memory == 0 && IsUnsigned(32, bytes[..j], align))
        || (IsUnsigned(32, bytes[..j], align + 64) && IsUnsigned(32, bytes[j..k], memory)))
    && IsUnsigned(64, bytes[k..], offset)
  }

  ghost predicate IsPair(bytes: seq<byte>, a: int, b: int, k: nat)
  {
    k <= |bytes| && IsUnsigned(32, bytes[..k], a) && IsUnsigned(32, bytes[k..], b)
  }

  predicate Opens(bytes: seq<byte>, b: byte)
  {
    bytes != [] && bytes[0] == b
  }

  /** The prefix byte and, up to `k`, a spelling of the number behind it. */
  ghost predicate Prefixed(bytes: seq<byte>, sub: int, k: nat)
  {
    1 <= k <= |bytes| && bytes[0] == 0xfc && IsUnsigned(32, bytes[1..k], sub)
  }

  /**
    `bytes` is one of the encodings of `op`: those of section 5.4 of the WebAssembly Core Specification and of the
    proposals the reader knows, and six of its own, for four kinds of block and two non-deterministic constants.
   */
  ghost predicate IsOperator(bytes: seq<byte>, op: Operator)
  {
    match op
    case Block(PlainBlock, ty) => Opens(bytes, 0x02) && IsBlockType(bytes[1..], ty)
    case Block(Loop, ty) => Opens(bytes, 0x03) && IsBlockType(bytes[1..], ty)
    case Block(Forall, ty) => exists k: nat :: Prefixed(bytes, 0x3a, k) && IsBlockType(bytes[k..], ty)
    case Block(Exists, ty) => exists k: nat :: Prefixed(bytes, 0x3b, k) && IsBlockType(bytes[k..], ty)
    case Block(Assume, ty) => exists k: nat :: Prefixed(bytes, 0x3c, k) && IsBlockType(bytes[k..], ty)
    case Block(Unique, ty) => exists k: nat :: Prefixed(bytes, 0x3d, k) && IsBlockType(bytes[k..], ty)
    case If(ty) => Opens(bytes, 0x04) && IsBlockType(bytes[1..], ty)
    case Else => bytes == [0x05]
    case End => bytes == [0x0b]
    case Br(depth) => Opens(bytes, 0x0c) && IsUnsigned(32, bytes[1..], depth)
    case BrIf(depth) => Opens(bytes, 0x0d) && IsUnsigned(32, bytes[1..], depth)
    case BrTable(ts, d) => Opens(bytes, 0x0e) && exists j: nat, k: nat :: IsTable(bytes[1..], ts, d, j, k)
    case Return => bytes == [0x0f]
    case Plain(Byte(b), imm) => Opens(bytes, b) && IsPlain(b, bytes[1..], imm)
    case Plain(Fc(sub), imm) => exists k: nat :: Prefixed(bytes, sub, k) && IsPlainFc(sub, bytes[k..], imm)
  }

  /** What may follow the opcode of an operator without control flow, by the kind of its immediates. */
  ghost predicate IsPlain(b: byte, rest: seq<byte>, imm: Imm)
  {
    match imm
    case None =>
      rest == [] && (0x45 <= b <= 0xc4 || b in {0x00, 0x01, 0x1a, 0x1b} || b in {0xd1, 0xd3, 0xd4})
    case U32(a) =>  // calls, variables, tables, memory size and growth, function references
      (b == 0x10 || 0x20 <= b <= 0x26 || b == 0x3f || b == 0x40 || b == 0xd2) && IsUnsigned(32, rest, a)
    case Pair(ty, table) => b == 0x11 && exists k: nat :: IsPair(rest, ty, table, k)
    case MemArg(align, offset, memory) =>
      0x28 <= b <= 0x3e && exists j: nat, k: nat :: IsMemArg(rest, align, offset, memory, j, k)
    case Const(v) =>
      || (b == 0x41 && IsSigned(32, rest, v))
      || (b == 0x42 && IsSigned(64, rest, v))
      || (b == 0x43 && IsFour(rest, v))
      || (b == 0x44 && IsEight(rest, v))
    case Blk(_) => false
    case Targets(_, _) => false
  }

  /** Behind the prefix byte: saturating truncation, bulk memory, tables, wide arithmetic, non-deterministic values. */
  ghost predicate IsPlainFc(sub: int, rest: seq<byte>, imm: Imm)
  {
    match imm
    case None => rest == [] && (0x00 <= sub <= 0x07 || 0x13 <= sub <= 0x16 || sub == 0x31 || sub == 0x32)
    case U32(a) => sub in {0x09, 0x0b, 0x0d, 0x0f, 0x10, 0x11, 0x12} && IsUnsigned(32, rest, a)
    case Pair(a, b) => sub in {0x08, 0x0a, 0x0c, 0x0e} && exists k: nat :: IsPair(rest, a, b, k)
    case _ => false
  }

  predicate IsFour(bytes: seq<byte>, v: int)
  {
    && |bytes| == 4
    && v == bytes[0] as int + bytes[1] as int * 0x100 + bytes[2] as int * 0x1_0000 + bytes[3] as int * 0x100_0000
  }

  ghost predicate IsEight(bytes: seq<byte>, v: int)
  {
    && |bytes| == 8
    && exists low, high ::
         && IsFour(bytes[..4], low) && IsFour(bytes[4..], high)
         && v == low + 0x1_0000_0000 * high
  }

  // ----- decoder -----

  /** The immediates an opcode is followed by. */
  datatype Shape =
    | NoImm | OneU32 | TwoU32 | BlockTy | Table | Mem | ConstI32 | ConstI64 | Bits32 | Bits64
    | Illegal      // rejected by the source
    | OutOfModel   // decoded by the source, not modelled here

  const MAX_BR_TABLE_SIZE: int := 128 * 1024

  function ValueTypeOf(b: byte): Option<ValueType>
  {
    match b
    case 0x7f => Some(I32)
    case 0x7e => Some(I64)
    case 0x7d => Some(F32)
    case 0x7c => Some(F64)
    case 0x7b => Some(V128)
    case 0x70 => Some(FuncRef)
    case 0x6f => Some(ExternRef)
    case _ => Option.None
  }

  function ShapeOf(code: Opcode): Shape
  {
    match code
    case Byte(b) =>
      if b in {0x00, 0x01, 0x05, 0x0b, 0x0f, 0x1a, 0x1b, 0xd1, 0xd3, 0xd4} || 0x45 <= b <= 0xc4 then NoImm
      else if 0x02 <= b <= 0x04 then BlockTy
      else if b in {0x0c, 0x0d, 0x10, 0x3f, 0x40, 0xd2} || 0x20 <= b <= 0x26 then OneU32
      else if b == 0x0e then Table
      else if b == 0x11 then TwoU32
      else if 0x28 <= b <= 0x3e then Mem
      else if b == 0x41 then ConstI32
      else if b == 0x42 then ConstI64
      else if b == 0x43 then Bits32
      else if b == 0x44 then Bits64
      else if b in {0x16, 0x17, 0x1d, 0x1e, 0x27, 0xff} || 0xc5 <= b <= 0xcf || 0xd7 <= b <= 0xdf || 0xe6 <= b <= 0xfa
      then Illegal
      else OutOfModel
    case Fc(sub) =>
      if 0 <= sub <= 0x07 || 0x13 <= sub <= 0x16 || sub == 0x31 || sub == 0x32 then NoImm
      else if sub in {0x08, 0x0a, 0x0c, 0x0e} then TwoU32
      else if sub in {0x09, 0x0b, 0x0d} || 0x0f <= sub <= 0x12 then OneU32
      else if 0x3a <= sub <= 0x3d then BlockTy
      else Illegal
  }

  /** The operator an opcode and its immediates make. */
  function Assemble(code: Opcode, imm: Imm): Operator
  {
    match (code, imm)
    case (Byte(0x02), Blk(ty)) => Block(PlainBlock, ty)
    case (Byte(0x03), Blk(ty)) => Block(Loop, ty)
    case (Byte(0x04), Blk(ty)) => If(ty)
    case (Byte(0x05), None) => Else
    case (Byte(0x0b), None) => End
    case (Byte(0x0c), U32(d)) => Br(d)
    case (Byte(0x0d), U32(d)) => BrIf(d)
    case (Byte(0x0e), Targets(ts, d)) => BrTable(ts, d)
    case (Byte(0x0f), None) => Return
    case (Fc(0x3a), Blk(ty)) => Block(Forall, ty)
    case (Fc(0x3b), Blk(ty)) => Block(Exists, ty)
    case (Fc(0x3c), Blk(ty)) => Block(Assume, ty)
    case (Fc(0x3d), Blk(ty)) => Block(Unique, ty)
    case (_, _) => Plain(code, imm)
  }

  function LittleEndian(bytes: seq<byte>): int
  {
    if bytes == [] then 0 else bytes[0] + 256 * LittleEndian(bytes[1..])
  }

  /** Like the s33 grammar, except that a negative five-byte integer is left without its sign extension. */
  function VarS33(s: seq<byte>): (d: Decoded<int>)
    ensures d.used <= |s|
  {
    match Signed(33, s)
    case Got(v, n) => Got(if n == 5 && v < 0 then v + 0x8_0000_0000 else v, n)
    case Bad(f, n, at) => Bad(if f == TooLarge then TooLong else f, n, at)
  }

  function BlockTypeAt(s: seq<byte>): (d: Decoded<BlockType>)
    ensures d.used <= |s|
  {
    if s == [] then Bad(UnexpectedEof, 0, 0)
    else if 64 <= s[0] < 128 then
      if s[0] == 0x40 then Got(Empty, 1)
      else
        match ValueTypeOf(s[0])
        case Some(t) => Got(Value(t), 1)
        case None => Bad(Unmodelled, 0, 0)
    else
      match VarS33(s)
      case Got(v, n) => if 0 <= v < 0x1_0000_0000 then Got(FuncType(v), n) else Bad(InvalidFunctionType, n, n)
      case Bad(f, n, at) => Bad(f, n, at)
  }

  function FixedAt(size: nat, s: seq<byte>): (d: Decoded<int>)
    ensures d.used <= |s|
  {
    if |s| < size then Bad(UnexpectedEof, 0, 0) else Got(LittleEndian(s[..size]), size)
  }

  function VectorAt(cnt: nat, s: seq<byte>): (d: Decoded<seq<int>>)
    ensures d.used <= |s|
    ensures d.Got? ==> |d.value| == cnt
  {
    if cnt == 0 then Got([], 0)
    else
      match Unsigned(32, s)
      case Bad(f, n, at) => Bad(f, n, at)
      case Got(v, n) =>
        match VectorAt(cnt - 1, s[n..])
        case Bad(f, k, at) => Bad(f, n + k, n + at)
        case Got(vs, k) => Got([v] + vs, n + k)
  }

  function SizeAt(limit: int, s: seq<byte>): (d: Decoded<int>)
    ensures d.used <= |s|
    ensures d.Got? ==> 0 <= d.value <= limit
  {
    match Unsigned(32, s)
    case Bad(f, n, at) => Bad(f, n, at)
    case Got(v, n) =>
      if v > limit then Bad(SizeOutOfBounds, n, 0) else Got(v, n)
  }

  function TableAt(s: seq<byte>): (d: Decoded<Imm>)
    ensures d.used <= |s|
  {
    match SizeAt(MAX_BR_TABLE_SIZE, s)
    case Bad(f, n, at) => Bad(f, n, at)
    case Got(cnt, j) =>
      match VectorAt(cnt, s[j..])
      case Bad(f, n, at) => Bad(f, j + n, j + at)
      case Got(ts, n) =>
        match Unsigned(32, s[j + n..])
        case Bad(f, m, at) => Bad(f, j + n + m, j + n + at)
        case Got(d, m) => Got(Targets(ts, d), j + n + m)
  }

  /** The memory index, when bit 6 of `flags` announces one. */
  function MemoryAt(flags: int, s: seq<byte>): (d: Decoded<int>)
    ensures d.used <= |s|
  {
    if flags / 64 % 2 == 1 then Unsigned(32, s) else Got(0, 0)
  }

  function MemAt(s: seq<byte>): (d: Decoded<Imm>)
    ensures d.used <= |s|
  {
    match Unsigned(32, s)
    case Bad(f, n, at) => Bad(f, n, at)
    case Got(flags, j) =>
      match MemoryAt(flags, s[j..])
      case Bad(f, n, at) => Bad(f, j + n, j + at)
      case Got(memory, n) =>
        var align := if flags / 64 % 2 == 1 then flags - 64 else flags;
        if align >= 64 then Bad(AlignmentTooLarge, j + n, 0)
        else
          match Unsigned(64, s[j + n..])
          case Bad(f, m, at) => Bad(f, j + n + m, j + n + at)
          case Got(offset, m) => Got(MemArg(align, offset, memory), j + n + m)
  }

  function PairAt(s: seq<byte>): (d: Decoded<Imm>)
    ensures d.used <= |s|
  {
    match Unsigned(32, s)
    case Bad(f, n, at) => Bad(f, n, at)
    case Got(a, j) =>
      match Unsigned(32, s[j..])
      case Bad(f, n, at) => Bad(f, j + n, j + at)
      case Got(b, n) => Got(Pair(a, b), j + n)
  }

  function AsConst(d: Decoded<int>): (r: Decoded<Imm>)
    ensures r.used == d.used
  {
    match d
    case Got(v, n) => Got(Const(v), n)
    case Bad(f, n, at) => Bad(f, n, at)
  }

  function ImmAt(shape: Shape, s: seq<byte>): (d: Decoded<Imm>)
    requires shape != Illegal && shape != OutOfModel
    ensures d.used <= |s|
  {
    match shape
    case NoImm => Got(Imm.None, 0)
    case OneU32 => (match Unsigned(32, s) case Got(v, n) => Got(U32(v), n) case Bad(f, n, at) => Bad(f, n, at))
    case TwoU32 => PairAt(s)
    case BlockTy => (match BlockTypeAt(s) case Got(ty, n) => Got(Blk(ty), n) case Bad(f, n, at) => Bad(f, n, at))
    case Table => TableAt(s)
    case Mem => MemAt(s)
    case ConstI32 => AsConst(Signed(32, s))
    case ConstI64 => AsConst(Signed(64, s))
    case Bits32 => AsConst(FixedAt(4, s))
    case Bits64 => AsConst(FixedAt(8, s))
  }

  function OpcodeAt(s: seq<byte>): (d: Decoded<Opcode>)
    ensures d.used <= |s|
    ensures d.Got? ==> d.used > 0
  {
    if s == [] then Bad(UnexpectedEof, 0, 0)
    else if s[0] != 0xfc then Got(Byte(s[0]), 1)
    else
      match Unsigned(32, s[1..])
      case Got(sub, n) => Got(Fc(sub), n + 1)
      case Bad(f, n, at) => Bad(f, n + 1, at + 1)
  }

  function OperatorAt(s: seq<byte>): (d: Decoded<Operator>)
    ensures d.used <= |s|
    ensures s != [] ==> d.used > 0
  {
    match OpcodeAt(s)
    case Bad(f, n, at) => Bad(f, n, at)
    case Got(code, k) =>
      var shape := ShapeOf(code);
      if shape == Illegal then Bad(if code.Fc? then UnknownSubopcode else IllegalOpcode, k, 0)
      else if shape == OutOfModel then Bad(Unmodelled, k, 0)
      else
        match ImmAt(shape, s[k..])
        case Bad(f, n, at) => Bad(f, k + n, k + at)
        case Got(imm, n) => Got(Assemble(code, imm), k + n)
  }
}
