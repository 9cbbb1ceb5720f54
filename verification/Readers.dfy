/** The mutable cursor over a byte window, its integer readers, sub-readers and iterators. */
module Readers {
  import opened Bits
  import opened Decoded
  import opened Leb128
  import opened LebLoops
  import opened Operators
  import opened OperatorGrammar

  datatype ReaderError = ReaderError(fault: Fault, offset: nat)

  datatype Result<+T> = Ok(value: T) | Err(error: ReaderError) {
    predicate IsFailure() {
      Err?
    }

    function PropagateFailure<U>(): Result<U>
      requires Err?
    {
      Err(error)
    }

    function Extract(): T
      requires Ok?
    {
      value
    }
  }

  /** How a decoding that started at original position `base` is reported to the caller. */
  function Report<T>(d: Decoded<T>, base: nat): Result<T>
  {
    match d
    case Got(v, _) => Ok(v)
    case Bad(f, _, at) => Err(ReaderError(f, base + at))
  }

  function ByteAt(s: seq<byte>): (d: Decoded<byte>)
    ensures d.used <= |s|
  {
    if s == [] then Bad(UnexpectedEof, 0, 0) else Got(s[0], 1)
  }

  class BinaryReader {
    const buffer: seq<byte>
    const originalOffset: nat
    var position: nat

    constructor (data: seq<byte>, offset: nat)
      ensures Valid() && buffer == data && originalOffset == offset && position == 0
    {
      buffer, originalOffset, position := data, offset, 0;
    }

    ghost predicate Valid()
      reads this
    {
      position <= |buffer|
    }

    function OriginalPosition(): nat
      reads this
    {
      originalOffset + position
    }

    predicate Eof()
      reads this
    {
      position >= |buffer|
    }

    function Rest(): seq<byte>
      requires Valid()
      reads this
    {
      buffer[position..]
    }

    /** A read that began at `start` had outcome `d`: the cursor moved by what was used, and `r` reports it. */
    ghost predicate Did<T>(d: Decoded<T>, start: nat, r: Result<T>)
      reads this
    {
      Valid() && position == start + d.used && r == Report(d, originalOffset + start)
    }

    method ReadU8() returns (r: Result<byte>)
      requires Valid()
      modifies this`position
      ensures Did(ByteAt(buffer[old(position)..]), old(position), r)
    {
      if position < |buffer| {
        r := Ok(buffer[position]);
        position := position + 1;
      } else {
        r := Err(ReaderError(UnexpectedEof, OriginalPosition()));
      }
    }

    method ReadVarU32() returns (r: Result<int>)
      requires Valid()
      modifies this`position
      ensures Did(Unsigned(32, buffer[old(position)..]), old(position), r)
    {
      var byte :- ReadU8();
      if !More(byte) {
        Pow2Values();
        r := Ok(byte);
      } else {
        r := ReadVarU32Big(byte);
      }
    }

    method ReadVarU32Big(first: byte) returns (r: Result<int>)
      requires Valid() && position > 0 && buffer[position - 1] == first && More(first)
      modifies this`position
      ensures Did(Unsigned(32, buffer[old(position) - 1..]), old(position) - 1, r)
    {
      hide Unsigned, Resume, Or, Shl, Pow2;
      ghost var start := position - 1;
      ghost var outcome := Unsigned(32, buffer[start..]);
      var result: nat := Low7(first);
      var shift: nat := 7;
      UnsignedEnter(32, buffer[start..]);
      while true
        invariant Valid() && start < position
        invariant 7 <= shift <= 28 && shift == 7 * (position - start) && result < Pow2(shift)
        invariant outcome == Resume(result, shift, position - start, Unsigned(32 - shift, Rest()))
        decreases |buffer| - position
      {
        ghost var acc, k, rest := result, position - start, Rest();
        StepAtEnd(32 - shift, acc, shift, k);
        var byte :- ReadU8();
        RestHead(buffer, position - 1);
        UnsignedStep(32, acc, shift, k, rest);
        result := Or(result, Shl(32, Low7(byte), shift));
        if shift >= 25 && byte / Pow2(32 - shift) != 0 {
          return Err(ReaderError(if More(byte) then TooLong else TooLarge, OriginalPosition() - 1));
        }
        shift := shift + 7;
        if !More(byte) {
          break;
        }
      }
      r := Ok(result);
    }

    method ReadVarU64() returns (r: Result<int>)
      requires Valid()
      modifies this`position
      ensures Did(Unsigned(64, buffer[old(position)..]), old(position), r)
    {
      var byte :- ReadU8();
      if !More(byte) {
        Pow2Values();
        r := Ok(byte);
      } else {
        r := ReadVarU64Big(byte);
      }
    }

    method ReadVarU64Big(first: byte) returns (r: Result<int>)
      requires Valid() && position > 0 && buffer[position - 1] == first && More(first)
      modifies this`position
      ensures Did(Unsigned(64, buffer[old(position) - 1..]), old(position) - 1, r)
    {
      hide Unsigned, Resume, Or, Shl, Pow2;
      ghost var start := position - 1;
      ghost var outcome := Unsigned(64, buffer[start..]);
      var result: nat := Low7(first);
      var shift: nat := 7;
      UnsignedEnter(64, buffer[start..]);
      while true
        invariant Valid() && start < position
        invariant 7 <= shift <= 63 && shift == 7 * (position - start) && result < Pow2(shift)
        invariant outcome == Resume(result, shift, position - start, Unsigned(64 - shift, Rest()))
        decreases |buffer| - position
      {
        ghost var acc, k, rest := result, position - start, Rest();
        StepAtEnd(64 - shift, acc, shift, k);
        var byte :- ReadU8();
        RestHead(buffer, position - 1);
        UnsignedStep(64, acc, shift, k, rest);
        result := Or(result, Shl(64, Low7(byte), shift));
        if shift >= 57 && byte / Pow2(64 - shift) != 0 {
          return Err(ReaderError(if More(byte) then TooLong else TooLarge, OriginalPosition() - 1));
        }
        shift := shift + 7;
        if !More(byte) {
          break;
        }
      }
      r := Ok(result);
    }

    method ReadVarI32() returns (r: Result<int>)
      requires Valid()
      modifies this`position
      ensures Did(Signed(32, buffer[old(position)..]), old(position), r)
    {
      hide Signed, Shl, Pow2, Sar, AsSigned;
      ghost var s := Rest();
      NothingSigned(32, s);
      var byte :- ReadU8();
      if !More(byte) {
        SignedOneByte(32, s);
        SignExtends(32, 7, byte);
        r := Ok(Sar(AsSigned(32, Shl(32, byte, 25)), 25));
      } else {
        r := ReadVarI32Big(byte);
      }
    }

    method ReadVarI32Big(first: byte) returns (r: Result<int>)
      requires Valid() && position > 0 && buffer[position - 1] == first && More(first)
      modifies this`position
      ensures Did(Signed(32, buffer[old(position) - 1..]), old(position) - 1, r)
    {
      hide Signed, Resume, Or, Shl, Pow2, Sar, DoubledAsI8, AsSigned;
      ghost var start := position - 1;
      ghost var outcome := Signed(32, buffer[start..]);
      var result: nat := Low7(first);
      var shift: nat := 7;
      SignedEnter(32, buffer[start..]);
      while true
        invariant Valid() && start < position
        invariant 7 <= shift <= 28 && shift == 7 * (position - start) && result < Pow2(shift)
        invariant outcome == Resume(result, shift, position - start, Signed(32 - shift, Rest()))
        decreases |buffer| - position
      {
        ghost var acc, k, rest := result, position - start, Rest();
        StepAtEnd(32 - shift, acc, shift, k);
        var byte :- ReadU8();
        RestHead(buffer, position - 1);
        result := Or(result, Shl(32, Low7(byte), shift));
        if shift >= 25 {
          SignedTop(32, acc, shift, k, rest);
          var unused := Sar(DoubledAsI8(byte), 32 - shift);
          if More(byte) || (unused != 0 && unused != -1) {
            return Err(ReaderError(if More(byte) then TooLong else TooLarge, OriginalPosition() - 1));
          }
          return Ok(AsSigned(32, result));
        }
        SignedStep(32, 32 - shift, acc, shift, k, rest);
        shift := shift + 7;
        if !More(byte) {
          break;
        }
      }
      SignExtends(32, shift, result);
      r := Ok(Sar(AsSigned(32, Shl(32, result, 32 - shift)), 32 - shift));
    }

    method ReadVarS33() returns (r: Result<int>)
      requires Valid()
      modifies this`position
      ensures Did(VarS33(buffer[old(position)..]), old(position), r)
    {
      hide Signed, Resume, Or, Shl, Pow2, Sar, DoubledAsI8, AsSigned;
      ghost var start := position;
      ghost var outcome := Signed(33, buffer[start..]);
      StepAtEnd(33, 0, 0, 0);
      ResumeStart(outcome);
      var byte :- ReadU8();
      if !More(byte) {
        OneByteS33(buffer[start..]);
        return Ok(Sar(AsSigned(8, Shl(8, byte, 1)), 1));
      }
      var result: nat := Low7(byte);
      var shift: nat := 7;
      SignedEnter(33, buffer[start..]);
      while true
        invariant Valid() && start < position
        invariant 7 <= shift <= 28 && shift == 7 * (position - start) && result < Pow2(shift)
        invariant outcome == Resume(result, shift, position - start, Signed(33 - shift, Rest()))
        decreases |buffer| - position
      {
        ghost var acc, k, rest := result, position - start, Rest();
        StepAtEnd(33 - shift, acc, shift, k);
        byte :- ReadU8();
        RestHead(buffer, position - 1);
        result := Or(result, Shl(64, Low7(byte), shift));
        if shift >= 25 {
          LastByteS33(acc, rest);
          var unused := Sar(DoubledAsI8(byte), 33 - shift);
          if More(byte) || (unused != 0 && unused != -1) {
            return Err(ReaderError(TooLong, OriginalPosition() - 1));
          }
          return Ok(result);
        }
        SignedStep(64, 33 - shift, acc, shift, k, rest);
        shift := shift + 7;
        if !More(byte) {
          break;
        }
      }
      SignExtends(64, shift, result);
      r := Ok(Sar(AsSigned(64, Shl(64, result, 64 - shift)), 64 - shift));
    }

    method ReadVarI64() returns (r: Result<int>)
      requires Valid()
      modifies this`position
      ensures Did(Signed(64, buffer[old(position)..]), old(position), r)
    {
      hide Signed, Resume, Or, Shl, Pow2, Sar, DoubledAsI8, AsSigned;
      ghost var start := position;
      ghost var outcome := Signed(64, buffer[start..]);
      ResumeStart(outcome);
      var result: nat := 0;
      var shift: nat := 0;
      while true
        invariant Valid() && start <= position
        invariant shift <= 63 && shift == 7 * (position - start) && result < Pow2(shift)
        invariant outcome == Resume(result, shift, position - start, Signed(64 - shift, Rest()))
        decreases |buffer| - position
      {
        ghost var acc, k, rest := result, position - start, Rest();
        StepAtEnd(64 - shift, acc, shift, k);
        var byte :- ReadU8();
        RestHead(buffer, position - 1);
        result := Or(result, Shl(64, Low7(byte), shift));
        if shift >= 57 {
          SignedTop(64, acc, shift, k, rest);
          var unused := Sar(DoubledAsI8(byte), 64 - shift);
          if More(byte) || (unused != 0 && unused != -1) {
            return Err(ReaderError(if More(byte) then TooLong else TooLarge, OriginalPosition() - 1));
          }
          return Ok(AsSigned(64, result));
        }
        SignedStep(64, 64 - shift, acc, shift, k, rest);
        shift := shift + 7;
        if !More(byte) {
          break;
        }
      }
      SignExtends(64, shift, result);
      r := Ok(Sar(AsSigned(64, Shl(64, result, 64 - shift)), 64 - shift));
    }

    method ReadSize(limit: int) returns (r: Result<int>)
      requires Valid()
      modifies this`position
      ensures Did(SizeAt(limit, buffer[old(position)..]), old(position), r)
    {
      hide Unsigned;
      var pos := OriginalPosition();
      var size :- ReadVarU32();
      if size > limit {
        return Err(ReaderError(SizeOutOfBounds, pos));
      }
      r := Ok(size);
    }

    method ReadFixed(size: nat) returns (r: Result<int>)
      requires Valid()
      modifies this`position
      ensures Did(FixedAt(size, buffer[old(position)..]), old(position), r)
    {
      if position + size <= |buffer| {
        assert buffer[position..][..size] == buffer[position..position + size];
        r := Ok(LittleEndian(buffer[position..position + size]));
        position := position + size;
      } else {
        r := Err(ReaderError(UnexpectedEof, OriginalPosition()));
      }
    }

    method ReadBlockType() returns (r: Result<BlockType>)
      requires Valid()
      modifies this`position
      ensures Did(BlockTypeAt(buffer[old(position)..]), old(position), r)
    {
      hide VarS33;
      if Eof() {
        return Err(ReaderError(UnexpectedEof, OriginalPosition()));
      }
      var b := buffer[position];
      if b < 128 && b >= 64 {
        if b == 0x40 {
          position := position + 1;
          return Ok(Empty);
        }
        match ValueTypeOf(b) {
          case Some(t) =>
            position := position + 1;
            return Ok(Value(t));
          case None =>
            return Err(ReaderError(Unmodelled, OriginalPosition()));
        }
      }
      var idx :- ReadVarS33();
      if 0 <= idx < 0x1_0000_0000 {
        r := Ok(FuncType(idx));
      } else {
        r := Err(ReaderError(InvalidFunctionType, OriginalPosition()));
      }
    }

    method ReadMemArg() returns (r: Result<Imm>)
      requires Valid()
      modifies this`position
      ensures Did(MemAt(buffer[old(position)..]), old(position), r)
    {
      hide Unsigned;
      ghost var start := position;
      var flagsPos := OriginalPosition();
      var flags :- ReadVarU32();
      var memory := 0;
      assert buffer[start..][position - start..] == buffer[position..];
      if flags / 64 % 2 == 1 {
        memory :- ReadVarU32();
        assert buffer[start..][position - start..] == buffer[position..];
        flags := flags - 64;
      }
      if flags >= 64 {
        return Err(ReaderError(AlignmentTooLarge, flagsPos));
      }
      var offset :- ReadVarU64();
      r := Ok(MemArg(flags, offset, memory));
    }

    /** Reads past `cnt` branch targets. */
    method SkipTargets(cnt: nat) returns (r: Result<()>)
      requires Valid()
      modifies this`position
      ensures Did(Forget(VectorAt(cnt, buffer[old(position)..])), old(position), r)
    {
      hide Unsigned, VectorAt, ResumeVector;
      ghost var start, vs := position, [];
      ResumeVectorStart(VectorAt(cnt, Rest()));
      for i := 0 to cnt
        invariant Valid() && start <= position
        invariant VectorAt(cnt, buffer[start..]) == ResumeVector(vs, position - start, VectorAt(cnt - i, Rest()))
      {
        ghost var rest, k := Rest(), position - start;
        ResumeVectorFault(vs, k, cnt - i, rest);
        ghost var at := position;
        var v :- ReadVarU32();
        RestOfRest(buffer, at, position);
        ResumeVectorStep(vs, k, cnt - i, rest);
        vs := vs + [v];
      }
      ResumeVectorEnd(vs, position - start, Rest());
      r := Ok(());
    }

    method ReadBrTable() returns (r: Result<Branches>)
      requires Valid()
      modifies this`position
      ensures var d := TableAt(buffer[old(position)..]);
              Did(Forget(d), old(position), Discard(r)) &&
              (r.Ok? ==> r.value.Exact() && d == Got(r.value.View(), d.used)) &&
              (r.Ok? ==> exists j, k :: && old(position) <= j <= k <= |buffer| && r.value.window == buffer[j..k]
                                        && r.value.offset == originalOffset + j)
    {
      hide Unsigned, VectorAt;
      ghost var s, start := Rest(), position;
      var cnt :- ReadSize(MAX_BR_TABLE_SIZE);
      var from := position;
      assert s[from - start..] == Rest();
      var _ :- SkipTargets(cnt);
      var to := position;
      assert s[to - start..] == Rest();
      var default :- ReadVarU32();
      r := Ok(Branches(buffer[from..to], originalOffset + from, cnt, default));
      VectorWindow(cnt, buffer[from..], to - from);
      assert buffer[from..to] == buffer[from..][..to - from];
    }

    /** A reader of just the bytes passed over since `start`. */
    method Window(start: nat) returns (w: BinaryReader)
      requires Valid() && start <= position
      ensures fresh(w) && w.Valid() && w.position == 0
      ensures w.buffer == buffer[start..position] && w.OriginalPosition() == originalOffset + start
    {
      w := new BinaryReader(buffer[start..position], originalOffset + start);
    }

    /** A reader of the bytes still to come. */
    method Shrink() returns (w: BinaryReader)
      requires Valid()
      ensures fresh(w) && w.Valid() && w.Rest() == w.buffer == Rest() && w.OriginalPosition() == OriginalPosition()
    {
      w := new BinaryReader(buffer[position..], originalOffset + position);
    }

    /** Reads a length-prefixed run of bytes as a reader of its own. */
    method ReadReader() returns (r: Result<BinaryReader>)
      requires Valid()
      modifies this`position
      ensures Valid()
      ensures var d := Unsigned(32, buffer[old(position)..]);
              match d
              case Bad(f, n, at) =>
                r == Err(ReaderError(f, originalOffset + old(position) + at)) && position == old(position) + n
              case Got(size, n) =>
                var body := old(position) + n;
                if body + size <= |buffer| then
                  r.Ok? && fresh(r.value) && r.value.Valid() && r.value.position == 0 &&
                  r.value.buffer == buffer[body..body + size] && r.value.originalOffset == originalOffset + body &&
                  position == body + size
                else
                  r == Err(ReaderError(UnexpectedEof, originalOffset + body)) && position == body
    {
      hide Unsigned;
      var size :- ReadVarU32();
      var start := position;
      if position + size > |buffer| {
        return Err(ReaderError(UnexpectedEof, OriginalPosition()));
      }
      position := position + size;
      var w := Window(start);
      r := Ok(w);
    }

    method ReadImmediate(shape: Shape) returns (r: Result<Imm>)
      requires Valid() && shape != Illegal && shape != OutOfModel
      modifies this`position
      ensures Did(ImmAt(shape, buffer[old(position)..]), old(position), r)
    {
      hide Unsigned, Signed, BlockTypeAt, MemAt, TableAt, FixedAt, VectorAt;
      ghost var s := Rest();
      match shape {
        case NoImm =>
          r := Ok(Imm.None);
        case OneU32 =>
          var v :- ReadVarU32();
          r := Ok(U32(v));
        case TwoU32 =>
          ghost var start := position;
          var a :- ReadVarU32();
          assert s[position - start..] == Rest();
          var b :- ReadVarU32();
          r := Ok(Pair(a, b));
        case BlockTy =>
          var ty :- ReadBlockType();
          r := Ok(Blk(ty));
        case Table =>
          var t :- ReadBrTable();
          var targets := TargetsOf(t);
          r := Ok(Targets(targets, t.default));
        case Mem =>
          r := ReadMemArg();
        case ConstI32 =>
          var v :- ReadVarI32();
          r := Ok(Const(v));
        case ConstI64 =>
          var v :- ReadVarI64();
          r := Ok(Const(v));
        case Bits32 =>
          var v :- ReadFixed(4);
          r := Ok(Const(v));
        case Bits64 =>
          var v :- ReadFixed(8);
          r := Ok(Const(v));
      }
    }

    method ReadOperator() returns (r: Result<Operator>)
      requires Valid()
      modifies this`position
      ensures Did(OperatorAt(buffer[old(position)..]), old(position), r)
    {
      hide Unsigned, ImmAt, ShapeOf, Assemble;
      ghost var s, start := Rest(), position;
      var pos := OriginalPosition();
      var byte :- ReadU8();
      var code := Byte(byte);
      assert s[1..] == Rest();
      if byte == 0xfc {
        var sub :- ReadVarU32();
        code := Fc(sub);
      }
      assert OpcodeAt(s) == Got(code, position - start);
      assert s[position - start..] == Rest();
      var shape := ShapeOf(code);
      if shape == Illegal {
        return Err(ReaderError(if code.Fc? then UnknownSubopcode else IllegalOpcode, pos));
      } else if shape == OutOfModel {
        return Err(ReaderError(Unmodelled, pos));
      }
      var imm :- ReadImmediate(shape);
      r := Ok(Assemble(code, imm));
    }
  }

  // ----- branch tables -----

  /** A branch table keeps the bytes of its targets and decodes them when asked. */
  datatype Branches = Branches(window: seq<byte>, offset: nat, cnt: nat, default: int) {
    /** The window holds `cnt` targets and nothing else. */
    ghost predicate Exact() {
      VectorAt(cnt, window).Got? && VectorAt(cnt, window).used == |window|
    }

    ghost function View(): Imm
      requires Exact()
    {
      Targets(VectorAt(cnt, window).value, default)
    }
  }

  function Forget<T>(d: Decoded<T>): (r: Decoded<()>)
    ensures r.used == d.used
  {
    match d
    case Got(_, n) => Got((), n)
    case Bad(f, n, at) => Bad(f, n, at)
  }

  function Discard<T>(r: Result<T>): Result<()>
  {
    match r
    case Ok(_) => Ok(())
    case Err(e) => Err(e)
  }

  ghost function ResumeVector(vs: seq<int>, k: nat, rest: Decoded<seq<int>>): Decoded<seq<int>>
  {
    match rest
    case Got(ws, n) => Got(vs + ws, k + n)
    case Bad(_, _, _) => rest.Shift(k)
  }

  lemma ResumeVectorStart(d: Decoded<seq<int>>)
    ensures ResumeVector([], 0, d) == d
  {
    if d.Got? {
      assert [] + d.value == d.value;
    }
  }

  lemma NothingSigned(n: nat, s: seq<byte>)
    requires n > 0
    ensures s == [] ==> Signed(n, s) == Bad(UnexpectedEof, 0, 0)
  {
  }

  lemma RestHead(s: seq<byte>, a: nat)
    requires a < |s|
    ensures s[a..] != [] && s[a..][0] == s[a] && s[a..][1..] == s[a + 1..]
  {
  }

  lemma RestOfRest(s: seq<byte>, a: nat, b: nat)
    requires a <= b <= |s|
    ensures s[a..][b - a..] == s[b..]
  {
  }

  lemma ResumeVectorEnd(vs: seq<int>, k: nat, s: seq<byte>)
    ensures ResumeVector(vs, k, VectorAt(0, s)) == Got(vs, k)
  {
    assert vs + [] == vs;
  }

  lemma ResumeVectorFault(vs: seq<int>, k: nat, cnt: nat, s: seq<byte>)
    requires cnt > 0
    ensures var d := Unsigned(32, s);
            d.Bad? ==> ResumeVector(vs, k, VectorAt(cnt, s)) == Bad(d.fault, k + d.used, k + d.at)
  {
  }

  lemma ResumeVectorStep(vs: seq<int>, k: nat, cnt: nat, s: seq<byte>)
    requires cnt > 0 && Unsigned(32, s).Got?
    ensures ResumeVector(vs, k, VectorAt(cnt, s))
            == ResumeVector(vs + [Unsigned(32, s).value], k + Unsigned(32, s).used,
                            VectorAt(cnt - 1, s[Unsigned(32, s).used..]))
  {
    hide Unsigned;
    var v, rest := Unsigned(32, s).value, VectorAt(cnt - 1, s[Unsigned(32, s).used..]);
    if rest.Got? {
      assert vs + ([v] + rest.value) == vs + [v] + rest.value;
    }
  }

  /** Targets decoded inside the window cut out for them are the targets that were skipped. */
  lemma VectorWindow(cnt: nat, s: seq<byte>, n: nat)
    requires VectorAt(cnt, s).Got? && VectorAt(cnt, s).used == n
    ensures VectorAt(cnt, s[..n]) == VectorAt(cnt, s)
  {
    VectorSound(cnt, s);
    VectorComplete(s[..n], VectorAt(cnt, s).value, []);
    assert s[..n] + [] == s[..n];
  }

  class BrTableTargets {
    const reader: BinaryReader
    var remaining: nat

    constructor (table: Branches)
      ensures fresh(reader) && reader.Valid() && reader.buffer == table.window && reader.position == 0
      ensures reader.originalOffset == table.offset && remaining == table.cnt
    {
      reader := new BinaryReader(table.window, table.offset);
      remaining := table.cnt;
    }

    method Next() returns (item: Option<Result<int>>)
      requires reader.Valid()
      modifies this`remaining, reader`position
      ensures reader.Valid()
      ensures old(remaining) == 0 ==>
                remaining == 0 && reader.position == old(reader.position) &&
                item == if reader.Eof() then Option.None
                        else Some(Err(ReaderError(TrailingData, reader.OriginalPosition())))
      ensures old(remaining) > 0 ==>
                remaining == old(remaining) - 1 && item.Some? &&
                reader.Did(Unsigned(32, reader.buffer[old(reader.position)..]), old(reader.position), item.value)
    {
      if remaining == 0 {
        if !reader.Eof() {
          return Some(Err(ReaderError(TrailingData, reader.OriginalPosition())));
        }
        return Option.None;
      }
      remaining := remaining - 1;
      var r := reader.ReadVarU32();
      item := Some(r);
    }
  }

  /** Iterating over a table as cut out by the reader yields its targets and ends; no item is ever an error. */
  method TargetsOf(table: Branches) returns (targets: seq<int>)
    requires table.Exact()
    ensures Targets(targets, table.default) == table.View()
    ensures |targets| == table.cnt
  {
    hide Unsigned, VectorAt, ResumeVector;
    ResumeVectorStart(VectorAt(table.cnt, table.window));
    var iter := new BrTableTargets(table);
    var reader := iter.reader;
    targets := [];
    ResumeVectorEnd([], 0, table.window);
    var item := iter.Next();
    ghost var prev: nat := 0;
    assert table.window[0..] == table.window;
    while item.Some?
      invariant reader == iter.reader && reader.Valid() && fresh(iter) && fresh(reader) && reader.buffer == table.window
      invariant prev <= |table.window|
      invariant item.Some? ==>
                  iter.remaining < table.cnt &&
                  reader.Did(Unsigned(32, table.window[prev..]), prev, item.value) &&
                  VectorAt(table.cnt, table.window)
                  == ResumeVector(targets, prev, VectorAt(iter.remaining + 1, table.window[prev..]))
      invariant item.None? ==> VectorAt(table.cnt, table.window) == Got(targets, |table.window|)
      decreases if item.Some? then 1 + iter.remaining else 0
    {
      ResumeVectorOk(targets, prev, iter.remaining + 1, table.window[prev..]);
      ResumeVectorStep(targets, prev, iter.remaining + 1, table.window[prev..]);
      assert table.window[prev..][reader.position - prev..] == reader.Rest();
      targets := targets + [item.value.value];
      prev := reader.position;
      ResumeVectorEnd(targets, prev, reader.Rest());
      item := iter.Next();
    }
  }

  lemma ResumeVectorOk(vs: seq<int>, k: nat, cnt: nat, s: seq<byte>)
    requires cnt > 0 && ResumeVector(vs, k, VectorAt(cnt, s)).Got?
    ensures Unsigned(32, s).Got?
  {
  }
}
