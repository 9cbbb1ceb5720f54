/** The operator decoder accepts exactly the operator grammar. */
module OperatorGrammar {
  import opened Bits
  import opened Decoded
  import opened Leb128
  import opened Operators

  // ----- block types -----

  /** The one place where the s33 reader departs from the grammar: negative integers spelled in five bytes. */
  lemma VarS33Value(s: seq<byte>)
    requires Signed(33, s).Got?
    ensures var v := Signed(33, s).value;
            VarS33(s).Got? && VarS33(s).used == Signed(33, s).used <= 5 &&
            -0x1_0000_0000 <= v < 0x1_0000_0000 &&
            VarS33(s).value == if VarS33(s).used == 5 && v < 0 then v + 0x8_0000_0000 else v
  {
    SignedSound(33, s);
    Pow2Values();
  }

  /** The five-byte spelling of -1 is returned as 2^35 - 1. */
  lemma UnextendedMinusOne()
    ensures var bytes := [0xff, 0xff, 0xff, 0xff, 0x7f];
            IsSigned(33, bytes, -1) && VarS33(bytes) == Got(0x7_ffff_ffff, 5)
  {
    hide Pow2;
    var bytes: seq<byte> := [0xff, 0xff, 0xff, 0xff, 0x7f];
    Pow2Values();
    assert bytes[1..][1..] == bytes[2..] && bytes[2..][1..] == bytes[3..] && bytes[3..][1..] == bytes[4..];
    assert Signed(5, bytes[4..]) == Got(-1, 1);
    assert Signed(12, bytes[3..]) == Got(-1, 2);
    assert Signed(19, bytes[2..]) == Got(-1, 3);
    assert Signed(26, bytes[1..]) == Got(-1, 4);
    assert Signed(33, bytes) == Got(-1, 5);
    SignedSound(33, bytes);
    assert bytes[..5] == bytes;
  }

  /**
    The missing sign extension is harmless to block types: function type `i` is read exactly off the s33 spellings
    of `i >= 0`.
   */
  lemma FuncTypeExact(s: seq<byte>, n: nat, i: int)
    ensures BlockTypeAt(s) == Got(FuncType(i), n) <==> n <= |s| && 0 <= i && IsSigned(33, s[..n], i)
  {
    if n <= |s| && 0 <= i && IsSigned(33, s[..n], i) {
      SignedComplete(33, s[..n], i, s[n..]);
      assert s[..n] + s[n..] == s;
      VarS33Value(s);
    }
    if BlockTypeAt(s) == Got(FuncType(i), n) {
      assert Signed(33, s).Got?;
      VarS33Value(s);
      SignedSound(33, s);
    }
  }

  lemma BlockTypeComplete(bytes: seq<byte>, ty: BlockType, t: seq<byte>)
    requires IsBlockType(bytes, ty)
    ensures BlockTypeAt(bytes + t) == Got(ty, |bytes|)
  {
    if ty.FuncType? {
      assert (bytes + t)[..|bytes|] == bytes;
      FuncTypeExact(bytes + t, |bytes|, ty.index);
    }
  }

  lemma BlockTypeSound(s: seq<byte>)
    requires BlockTypeAt(s).Got?
    ensures IsBlockType(s[..BlockTypeAt(s).used], BlockTypeAt(s).value)
  {
    var d := BlockTypeAt(s);
    if d.value.FuncType? {
      FuncTypeExact(s, d.used, d.value.index);
    }
  }

  // ----- immediates -----

  lemma {:induction false} VectorComplete(bytes: seq<byte>, vs: seq<int>, t: seq<byte>)
    requires IsVector(bytes, vs)
    ensures VectorAt(|vs|, bytes + t) == Got(vs, |bytes|)
    decreases vs
  {
    hide Unsigned, IsUnsigned;
    if vs != [] {
      var k :| 0 <= k <= |bytes| && IsUnsigned(32, bytes[..k], vs[0]) && IsVector(bytes[k..], vs[1..]);
      UnsignedComplete(32, bytes[..k], vs[0], bytes[k..] + t);
      assert bytes[..k] + (bytes[k..] + t) == bytes + t;
      VectorComplete(bytes[k..], vs[1..], t);
      assert (bytes + t)[k..] == bytes[k..] + t;
      assert vs == [vs[0]] + vs[1..];
    }
  }

  lemma {:induction false} VectorSound(cnt: nat, s: seq<byte>)
    requires VectorAt(cnt, s).Got?
    ensures IsVector(s[..VectorAt(cnt, s).used], VectorAt(cnt, s).value)
  {
    hide Unsigned, IsUnsigned;
    if cnt > 0 {
      UnsignedSound(32, s);
      var n := Unsigned(32, s).used;
      VectorSound(cnt - 1, s[n..]);
      var bytes, vs := s[..VectorAt(cnt, s).used], VectorAt(cnt, s).value;
      assert vs[1..] == VectorAt(cnt - 1, s[n..]).value;
      ThreeParts(s, n, n, |bytes|);
    }
  }

  lemma TableComplete(bytes: seq<byte>, ts: seq<int>, d: int, j: nat, k: nat, t: seq<byte>)
    requires IsTable(bytes, ts, d, j, k)
    ensures TableAt(bytes + t) == Got(Targets(ts, d), |bytes|)
  {
    hide Unsigned, IsUnsigned, VectorAt, IsVector;
    var s := bytes + t;
    UnsignedComplete(32, bytes[..j], |ts|, s[j..]);
    assert bytes[..j] + s[j..] == s;
    VectorComplete(bytes[j..k], ts, s[k..]);
    assert bytes[j..k] + s[k..] == s[j..];
    UnsignedComplete(32, bytes[k..], d, t);
    assert bytes[k..] + t == s[k..];
  }

  lemma TableSound(s: seq<byte>)
    requires TableAt(s).Got?
    ensures IsImm(Table, s[..TableAt(s).used], TableAt(s).value)
  {
    hide Unsigned, IsUnsigned, VectorAt, IsVector;
    var size := SizeAt(MAX_BR_TABLE_SIZE, s);
    var j := size.used;
    var k := j + VectorAt(size.value, s[j..]).used;
    var n := TableAt(s).used;
    UnsignedSound(32, s);
    VectorSound(size.value, s[j..]);
    UnsignedSound(32, s[k..]);
    var bytes := s[..n];
    ThreeParts(s, j, k, n);
    assert IsTable(bytes, TableAt(s).value.targets, TableAt(s).value.default, j, k);
  }

  /** A prefix cut in three. */
  lemma ThreeParts(s: seq<byte>, j: nat, k: nat, n: nat)
    requires j <= k <= n <= |s|
    ensures s[..n][..j] == s[..j] && s[..n][j..k] == s[j..][..k - j] && s[..n][k..] == s[k..][..n - k]
  {
  }

  lemma MemComplete(bytes: seq<byte>, align: int, offset: int, memory: int, j: nat, k: nat, t: seq<byte>)
    requires IsMemArg(bytes, align, offset, memory, j, k)
    ensures MemAt(bytes + t) == Got(MemArg(align, offset, memory), |bytes|)
  {
    hide Unsigned, IsUnsigned;
    var s := bytes + t;
    assert bytes[..j] + s[j..] == s && bytes[j..k] + s[k..] == s[j..] && bytes[k..] + t == s[k..];
    if j == k && memory == 0 && IsUnsigned(32, bytes[..j], align) {
      UnsignedComplete(32, bytes[..j], align, s[j..]);
    } else {
      UnsignedComplete(32, bytes[..j], align + 64, s[j..]);
      UnsignedComplete(32, bytes[j..k], memory, s[k..]);
    }
    UnsignedComplete(64, bytes[k..], offset, t);
  }

  lemma MemSound(s: seq<byte>)
    requires MemAt(s).Got?
    ensures IsImm(Mem, s[..MemAt(s).used], MemAt(s).value)
  {
    hide Unsigned, IsUnsigned, Pow2;
    var flags, j := Unsigned(32, s).value, Unsigned(32, s).used;
    var k := j + MemoryAt(flags, s[j..]).used;
    var n := MemAt(s).used;
    UnsignedSound(32, s);
    UnsignedSound(64, s[k..]);
    if flags / 64 % 2 == 1 {
      UnsignedSound(32, s[j..]);
    }
    assert n == k + Unsigned(64, s[k..]).used;
    var bytes, m := s[..n], MemAt(s).value;
    ThreeParts(s, j, k, n);
    assert IsMemArg(bytes, m.align, m.offset, m.memory, j, k);
  }

  /** The immediates by the shape the opcode table gives them. */
  ghost predicate IsImm(shape: Shape, bytes: seq<byte>, imm: Imm)
  {
    match (shape, imm)
    case (NoImm, None) => bytes == []
    case (OneU32, U32(a)) => IsUnsigned(32, bytes, a)
    case (TwoU32, Pair(a, b)) => exists k: nat :: IsPair(bytes, a, b, k)
    case (BlockTy, Blk(ty)) => IsBlockType(bytes, ty)
    case (Table, Targets(ts, d)) => exists j: nat, k: nat :: IsTable(bytes, ts, d, j, k)
    case (Mem, MemArg(align, offset, memory)) => exists j: nat, k: nat :: IsMemArg(bytes, align, offset, memory, j, k)
    case (ConstI32, Const(v)) => IsSigned(32, bytes, v)
    case (ConstI64, Const(v)) => IsSigned(64, bytes, v)
    case (Bits32, Const(v)) => IsFour(bytes, v)
    case (Bits64, Const(v)) => IsEight(bytes, v)
    case (_, _) => false
  }

  ghost predicate IsOpcode(bytes: seq<byte>, code: Opcode)
  {
    match code
    case Byte(b) => bytes == [b] && b != 0xfc
    case Fc(sub) => |bytes| > 1 && bytes[0] == 0xfc && IsUnsigned(32, bytes[1..], sub)
  }

  ghost predicate IsSpelling(bytes: seq<byte>, op: Operator, code: Opcode, imm: Imm, k: nat)
  {
    k <= |bytes| && IsOpcode(bytes[..k], code) && IsImm(ShapeOf(code), bytes[k..], imm) && op == Assemble(code, imm)
  }

  lemma PairComplete(bytes: seq<byte>, a: int, b: int, k: nat, t: seq<byte>)
    requires IsPair(bytes, a, b, k)
    ensures PairAt(bytes + t) == Got(Pair(a, b), |bytes|)
  {
    hide Unsigned, IsUnsigned;
    var s := bytes + t;
    assert bytes[..k] + s[k..] == s && bytes[k..] + t == s[k..];
    UnsignedComplete(32, bytes[..k], a, s[k..]);
    UnsignedComplete(32, bytes[k..], b, t);
  }

  lemma PairSound(s: seq<byte>)
    requires PairAt(s).Got?
    ensures IsImm(TwoU32, s[..PairAt(s).used], PairAt(s).value)
  {
    hide Unsigned, IsUnsigned;
    var j, n := Unsigned(32, s).used, PairAt(s).used;
    UnsignedSound(32, s);
    UnsignedSound(32, s[j..]);
    ThreeParts(s, j, j, n);
    assert IsPair(s[..n], PairAt(s).value.a, PairAt(s).value.b, j);
  }

  /** Four bytes, and eight, least significant first. */
  lemma LittleEndianExactly(bytes: seq<byte>, v: int)
    ensures |bytes| == 4 ==> (IsFour(bytes, v) <==> v == LittleEndian(bytes))
    ensures |bytes| == 8 ==> (IsEight(bytes, v) <==> v == LittleEndian(bytes))
  {
    if |bytes| == 4 {
      FourBytes(bytes, []);
    } else if |bytes| == 8 {
      FourBytes(bytes[..4], bytes[4..]);
      FourBytes(bytes[4..], []);
      assert bytes[..4] + bytes[4..] == bytes;
      var low, high := LittleEndian(bytes[..4]), LittleEndian(bytes[4..]);
      assert IsFour(bytes[..4], low) && IsFour(bytes[4..], high);
    }
  }

  lemma FourBytes(bytes: seq<byte>, t: seq<byte>)
    requires |bytes| == 4
    ensures IsFour(bytes, LittleEndian(bytes))
    ensures LittleEndian(bytes + t) == LittleEndian(bytes) + 0x1_0000_0000 * LittleEndian(t)
    ensures bytes + [] == bytes
  {
    var whole := bytes + t;
    assert whole[1..][1..][1..][1..] == t && bytes[1..][1..][1..][1..] == [];
    assert whole[1..][1..] == whole[2..] && bytes[1..][1..] == bytes[2..];
    assert whole[2..][1..] == whole[3..] && bytes[2..][1..] == bytes[3..];
    assert LittleEndian(whole[3..]) == bytes[3] + 256 * LittleEndian(t);
    assert LittleEndian(bytes[3..]) == bytes[3];
    assert LittleEndian(whole[2..]) == bytes[2] + 256 * LittleEndian(whole[3..]);
    assert LittleEndian(bytes[2..]) == bytes[2] + 256 * LittleEndian(bytes[3..]);
    assert LittleEndian(whole[1..]) == bytes[1] + 256 * LittleEndian(whole[2..]);
    assert LittleEndian(bytes[1..]) == bytes[1] + 256 * LittleEndian(bytes[2..]);
  }

  lemma ImmComplete(shape: Shape, bytes: seq<byte>, imm: Imm, t: seq<byte>)
    requires IsImm(shape, bytes, imm)
    ensures shape != Illegal && shape != OutOfModel
    ensures ImmAt(shape, bytes + t) == Got(imm, |bytes|)
  {
    match shape
    case NoImm =>
    case OneU32 => UnsignedComplete(32, bytes, imm.a, t);
    case TwoU32 =>
      var k: nat :| IsPair(bytes, imm.a, imm.b, k);
      PairComplete(bytes, imm.a, imm.b, k, t);
    case BlockTy => BlockTypeComplete(bytes, imm.ty, t);
    case Table =>
      var j: nat, k: nat :| IsTable(bytes, imm.targets, imm.default, j, k);
      TableComplete(bytes, imm.targets, imm.default, j, k, t);
    case Mem =>
      var j: nat, k: nat :| IsMemArg(bytes, imm.align, imm.offset, imm.memory, j, k);
      MemComplete(bytes, imm.align, imm.offset, imm.memory, j, k, t);
    case ConstI32 => SignedComplete(32, bytes, imm.v, t);
    case ConstI64 => SignedComplete(64, bytes, imm.v, t);
    case Bits32 =>
      LittleEndianExactly(bytes, imm.v);
      assert (bytes + t)[..4] == bytes;
    case Bits64 =>
      LittleEndianExactly(bytes, imm.v);
      assert (bytes + t)[..8] == bytes;
    case _ =>
  }

  lemma ImmSound(shape: Shape, s: seq<byte>)
    requires shape != Illegal && shape != OutOfModel && ImmAt(shape, s).Got?
    ensures IsImm(shape, s[..ImmAt(shape, s).used], ImmAt(shape, s).value)
  {
    match shape
    case NoImm =>
    case OneU32 => UnsignedSound(32, s);
    case TwoU32 => PairSound(s);
    case BlockTy => BlockTypeSound(s);
    case Table => TableSound(s);
    case Mem => MemSound(s);
    case ConstI32 => SignedSound(32, s);
    case ConstI64 => SignedSound(64, s);
    case Bits32 => if |s| >= 4 { LittleEndianExactly(s[..4], LittleEndian(s[..4])); }
    case Bits64 => if |s| >= 8 { LittleEndianExactly(s[..8], LittleEndian(s[..8])); }
  }

  // ----- operators -----

  lemma OpcodeExact(s: seq<byte>, k: nat, code: Opcode)
    ensures OpcodeAt(s) == Got(code, k) <==> k <= |s| && IsOpcode(s[..k], code)
  {
    if OpcodeAt(s) == Got(code, k) {
      if code.Fc? {
        UnsignedSound(32, s[1..]);
        assert s[..k][1..] == s[1..][..k - 1];
      }
    }
    if k <= |s| && IsOpcode(s[..k], code) {
      assert s[0] == s[..k][0];
      if code.Fc? {
        UnsignedComplete(32, s[..k][1..], code.sub, s[k..]);
        assert s[..k][1..] + s[k..] == s[1..];
      }
    }
  }

  /** The opcode and the immediates of an operator, told from the operator. */
  function CodeOf(op: Operator): Opcode
  {
    match op
    case Block(PlainBlock, _) => Byte(0x02)
    case Block(Loop, _) => Byte(0x03)
    case Block(Forall, _) => Fc(0x3a)
    case Block(Exists, _) => Fc(0x3b)
    case Block(Assume, _) => Fc(0x3c)
    case Block(Unique, _) => Fc(0x3d)
    case If(_) => Byte(0x04)
    case Else => Byte(0x05)
    case End => Byte(0x0b)
    case Br(_) => Byte(0x0c)
    case BrIf(_) => Byte(0x0d)
    case BrTable(_, _) => Byte(0x0e)
    case Return => Byte(0x0f)
    case Plain(code, _) => code
  }

  function ImmOf(op: Operator): Imm
  {
    match op
    case Block(_, ty) => Blk(ty)
    case If(ty) => Blk(ty)
    case Else => Imm.None
    case End => Imm.None
    case Br(depth) => U32(depth)
    case BrIf(depth) => U32(depth)
    case BrTable(ts, d) => Targets(ts, d)
    case Return => Imm.None
    case Plain(_, imm) => imm
  }

  lemma AssembleInverse(code: Opcode, imm: Imm, bytes: seq<byte>)
    requires IsImm(ShapeOf(code), bytes, imm)
    ensures CodeOf(Assemble(code, imm)) == code && ImmOf(Assemble(code, imm)) == imm
  {
    hide IsUnsigned, IsSigned, IsBlockType, IsTable, IsMemArg, IsPair, IsFour, IsEight;
  }

  /** What the opcode table makes of an opcode and the bytes behind it. */
  ghost predicate Makes(code: Opcode, rest: seq<byte>, op: Operator)
  {
    code == CodeOf(op) && IsImm(ShapeOf(code), rest, ImmOf(op)) && op == Assemble(code, ImmOf(op))
  }

  /** The grammar, told from the operator, and the opcode table agree on what may follow a byte. */
  lemma ByteAgrees(bytes: seq<byte>, op: Operator)
    requires CodeOf(op).Byte?
    ensures IsOperator(bytes, op) <==> bytes != [] && bytes[0] != 0xfc && Makes(Byte(bytes[0]), bytes[1..], op)
  {
    hide IsUnsigned, IsSigned, IsBlockType, IsTable, IsMemArg, IsPair, IsFour, IsEight;
    assert |bytes| == 1 ==> bytes == [bytes[0]];
  }

  /** And on what may follow the prefix byte and its number. */
  lemma PrefixAgrees(bytes: seq<byte>, op: Operator)
    requires CodeOf(op).Fc?
    ensures IsOperator(bytes, op) <==>
            exists k: nat :: Prefixed(bytes, CodeOf(op).sub, k) && Makes(CodeOf(op), bytes[k..], op)
  {
    hide Prefixed, Makes;
    forall k: nat | k <= |bytes|
      ensures op.Block? ==> (Makes(CodeOf(op), bytes[k..], op) <==> IsBlockType(bytes[k..], op.ty))
      ensures op.Plain? ==> (Makes(CodeOf(op), bytes[k..], op) <==> IsPlainFc(op.code.sub, bytes[k..], op.imm))
    {
      RestAgrees(bytes[k..], op);
    }
    forall sub, k: nat | Prefixed(bytes, sub, k)
      ensures 1 <= k <= |bytes|
    {
      PrefixedBound(bytes, sub, k);
    }
  }

  lemma PrefixedBound(bytes: seq<byte>, sub: int, k: nat)
    requires Prefixed(bytes, sub, k)
    ensures 1 <= k <= |bytes|
  {
  }

  lemma PrefixedSub(bytes: seq<byte>, sub: int, k: nat)
    requires Prefixed(bytes, sub, k)
    ensures sub >= 0
  {
    UnsignedComplete(32, bytes[1..k], sub, []);
  }

  lemma RestAgrees(rest: seq<byte>, op: Operator)
    requires CodeOf(op).Fc?
    ensures op.Block? ==> (Makes(CodeOf(op), rest, op) <==> IsBlockType(rest, op.ty))
    ensures op.Plain? ==> (Makes(CodeOf(op), rest, op) <==> IsPlainFc(op.code.sub, rest, op.imm))
  {
    hide IsUnsigned, IsSigned, IsBlockType, IsTable, IsMemArg, IsPair, IsFour, IsEight;
  }

  /** So the spellings of an operator are its opcode's spellings followed by its immediates'. */
  lemma SpellingExactly(bytes: seq<byte>, op: Operator)
    ensures IsOperator(bytes, op) <==> exists k: nat :: IsSpelling(bytes, op, CodeOf(op), ImmOf(op), k)
  {
    hide IsOperator, IsImm, Assemble, ShapeOf, CodeOf, ImmOf, IsUnsigned;
    var code := CodeOf(op);
    if code.Byte? {
      ByteAgrees(bytes, op);
      if IsOperator(bytes, op) {
        assert bytes[..1] == [bytes[0]];
        assert IsSpelling(bytes, op, code, ImmOf(op), 1);
      }
      if k: nat :| IsSpelling(bytes, op, code, ImmOf(op), k) {
        assert |bytes[..k]| == 1 && bytes[0] == bytes[..k][0];
      }
    } else {
      PrefixAgrees(bytes, op);
      if IsOperator(bytes, op) {
        var k: nat :| Prefixed(bytes, code.sub, k) && Makes(code, bytes[k..], op);
        PrefixIsOpcode(bytes, code.sub, k);
        assert IsSpelling(bytes, op, code, ImmOf(op), k);
      }
      if k: nat :| IsSpelling(bytes, op, code, ImmOf(op), k) {
        PrefixIsOpcode(bytes, code.sub, k);
      }
    }
  }

  lemma PrefixIsOpcode(bytes: seq<byte>, sub: int, k: nat)
    requires k <= |bytes|
    ensures Prefixed(bytes, sub, k) <==> IsOpcode(bytes[..k], Fc(sub))
  {
    if k > 0 {
      assert bytes[..k][1..] == bytes[1..k];
    }
  }

  /** Every encoding of an operator is decoded to it, whatever follows, and the cursor stops right behind it. */
  lemma OperatorComplete(bytes: seq<byte>, op: Operator, t: seq<byte>)
    requires IsOperator(bytes, op)
    ensures OperatorAt(bytes + t) == Got(op, |bytes|)
    ensures bytes != []
  {
    hide Unsigned, IsUnsigned, ImmAt, IsImm, OpcodeAt, IsOpcode, Assemble, IsOperator, CodeOf, ImmOf;
    SpellingExactly(bytes, op);
    var code, imm := CodeOf(op), ImmOf(op);
    var k: nat :| IsSpelling(bytes, op, code, imm, k);
    var s := bytes + t;
    assert s[..k] == bytes[..k] && s[k..] == bytes[k..] + t;
    OpcodeExact(s, k, code);
    ImmComplete(ShapeOf(code), bytes[k..], imm, t);
  }

  /** Whatever is decoded as an operator was one of its encodings. */
  lemma OperatorSound(s: seq<byte>)
    requires OperatorAt(s).Got?
    ensures IsOperator(s[..OperatorAt(s).used], OperatorAt(s).value)
  {
    hide Unsigned, IsUnsigned, ImmAt, IsImm, IsOpcode, Assemble, IsOperator, CodeOf, ImmOf;
    var code, k := OpcodeAt(s).value, OpcodeAt(s).used;
    OpcodeExact(s, k, code);
    ImmSound(ShapeOf(code), s[k..]);
    var imm := ImmAt(ShapeOf(code), s[k..]).value;
    var bytes := s[..OperatorAt(s).used];
    assert bytes[..k] == s[..k] && bytes[k..] == s[k..][..ImmAt(ShapeOf(code), s[k..]).used];
    assert IsSpelling(bytes, OperatorAt(s).value, code, imm, k);
    AssembleInverse(code, imm, bytes[k..]);
    SpellingExactly(bytes, OperatorAt(s).value);
  }

  lemma OperatorExact(s: seq<byte>, op: Operator, n: nat)
    ensures OperatorAt(s) == Got(op, n) <==> n <= |s| && IsOperator(s[..n], op)
  {
    hide OperatorAt, IsOperator;
    if OperatorAt(s) == Got(op, n) {
      OperatorSound(s);
    }
    if n <= |s| && IsOperator(s[..n], op) {
      OperatorComplete(s[..n], op, s[n..]);
      assert s[..n] + s[n..] == s;
    }
  }

  predicate OfImmediates<T>(d: Decoded<T>)
  {
    d.Bad? ==> d.fault != IllegalOpcode && d.fault != UnknownSubopcode
  }

  lemma {:induction false} IntegerFaults(n: nat, s: seq<byte>)
    requires n > 0
    ensures OfImmediates(Unsigned(n, s)) && OfImmediates(Signed(n, s))
    decreases |s|
  {
    if s != [] && n > 7 {
      IntegerFaults(n - 7, s[1..]);
    }
  }

  lemma {:induction false} VectorFaults(cnt: nat, s: seq<byte>)
    ensures OfImmediates(VectorAt(cnt, s))
    decreases cnt
  {
    IntegerFaults(32, s);
    if cnt > 0 && Unsigned(32, s).Got? {
      VectorFaults(cnt - 1, s[Unsigned(32, s).used..]);
    }
  }

  /** No fault of the immediates is a fault of the opcode. */
  lemma ImmFaults(shape: Shape, s: seq<byte>)
    requires shape != Illegal && shape != OutOfModel
    ensures OfImmediates(ImmAt(shape, s))
  {
    hide Unsigned, Signed, VectorAt;
    forall n: nat, t: seq<byte> | n > 0
      ensures OfImmediates(Unsigned(n, t)) && OfImmediates(Signed(n, t))
    {
      IntegerFaults(n, t);
    }
    forall cnt: nat, t: seq<byte>
      ensures OfImmediates(VectorAt(cnt, t))
    {
      VectorFaults(cnt, t);
    }
  }

  /** Exactly the opcodes that open no operator of any proposal are illegal, whatever follows them. */
  lemma IllegalExactly(s: seq<byte>)
    requires s != []
    ensures OperatorAt(s) == Bad(IllegalOpcode, 1, 0) <==>
            !(s[0] <= 0x15 || 0x18 <= s[0] <= 0x1c || 0x1f <= s[0] <= 0x26 || 0x28 <= s[0] <= 0xc4 ||
              0xd0 <= s[0] <= 0xd6 || 0xe0 <= s[0] <= 0xe5 || 0xfb <= s[0] <= 0xfe)
  {
    hide ImmAt, Unsigned;
    IntegerFaults(32, s[1..]);
    if OpcodeAt(s).Got? && ShapeOf(OpcodeAt(s).value) !in {Illegal, OutOfModel} {
      ImmFaults(ShapeOf(OpcodeAt(s).value), s[OpcodeAt(s).used..]);
    }
  }

  /** Behind the prefix byte, exactly the numbers without an operator are unknown. */
  lemma UnknownExactly(s: seq<byte>, sub: int, k: nat)
    requires Prefixed(s, sub, k)
    ensures OperatorAt(s) == Bad(UnknownSubopcode, k, 0) <==>
            !(sub <= 0x16 || sub in {0x31, 0x32, 0x3a, 0x3b, 0x3c, 0x3d})
  {
    hide ImmAt, OpcodeAt, Prefixed, IsOpcode, Assemble;
    PrefixedBound(s, sub, k);
    PrefixIsOpcode(s, sub, k);
    OpcodeExact(s, k, Fc(sub));
    PrefixedSub(s, sub, k);
    if ShapeOf(Fc(sub)) != Illegal {
      ImmFaults(ShapeOf(Fc(sub)), s[k..]);
    }
  }

  /** No spelling of an operator is shared with another, and none is a prefix of another's. */
  lemma OperatorPrefixFree(a: seq<byte>, b: seq<byte>, opA: Operator, opB: Operator)
    requires IsOperator(a, opA) && IsOperator(b, opB) && a <= b
    ensures a == b && opA == opB
  {
    hide OperatorAt, IsOperator;
    OperatorComplete(a, opA, b[|a|..]);
    OperatorComplete(b, opB, []);
    assert a + b[|a|..] == b && b + [] == b;
  }
}
