/** Reads inside a window: they end as in the whole buffer, or run into the end of the window. */
module Locality {
  import opened Bits
  import opened Decoded
  import opened Leb128
  import opened Operators
  import opened OperatorGrammar

  /** The outcome did not come from the end of the input. */
  predicate Settled<T>(d: Decoded<T>)
  {
    d.Bad? ==> d.fault != UnexpectedEof
  }

  // ----- a settled outcome stays, whatever follows the bytes -----

  lemma {:induction false} UnsignedStays(n: nat, s: seq<byte>, t: seq<byte>)
    requires Settled(Unsigned(n, s))
    ensures Unsigned(n, s + t) == Unsigned(n, s)
    decreases s
  {
    if s[0] >= 128 && n > 7 {
      assert (s + t)[1..] == s[1..] + t;
      UnsignedStays(n - 7, s[1..], t);
    }
  }

  lemma {:induction false} SignedStays(n: nat, s: seq<byte>, t: seq<byte>)
    requires n > 0 && Settled(Signed(n, s))
    ensures Signed(n, s + t) == Signed(n, s)
    decreases s
  {
    if s[0] >= 128 && n > 7 {
      assert (s + t)[1..] == s[1..] + t;
      SignedStays(n - 7, s[1..], t);
    }
  }

  lemma {:induction false} VectorStays(cnt: nat, s: seq<byte>, t: seq<byte>)
    requires Settled(VectorAt(cnt, s))
    ensures VectorAt(cnt, s + t) == VectorAt(cnt, s)
  {
    hide Unsigned;
    if cnt > 0 {
      UnsignedStays(32, s, t);
      var d := Unsigned(32, s);
      if d.Got? {
        assert (s + t)[d.used..] == s[d.used..] + t;
        VectorStays(cnt - 1, s[d.used..], t);
      }
    }
  }

  lemma SizeStays(limit: int, s: seq<byte>, t: seq<byte>)
    requires Settled(SizeAt(limit, s))
    ensures SizeAt(limit, s + t) == SizeAt(limit, s)
  {
    hide Unsigned;
    UnsignedStays(32, s, t);
  }

  lemma TableStays(s: seq<byte>, t: seq<byte>)
    requires Settled(TableAt(s))
    ensures TableAt(s + t) == TableAt(s)
  {
    hide SizeAt, VectorAt, Unsigned;
    var size := SizeAt(MAX_BR_TABLE_SIZE, s);
    SizeStays(MAX_BR_TABLE_SIZE, s, t);
    if size.Got? {
      var j := size.used;
      assert (s + t)[j..] == s[j..] + t;
      VectorStays(size.value, s[j..], t);
      var v := VectorAt(size.value, s[j..]);
      if v.Got? {
        assert (s + t)[j + v.used..] == s[j + v.used..] + t;
        UnsignedStays(32, s[j + v.used..], t);
      }
    }
  }

  lemma MemStays(s: seq<byte>, t: seq<byte>)
    requires Settled(MemAt(s))
    ensures MemAt(s + t) == MemAt(s)
  {
    hide Unsigned;
    var flags := Unsigned(32, s);
    UnsignedStays(32, s, t);
    if flags.Got? {
      var j := flags.used;
      assert (s + t)[j..] == s[j..] + t;
      var memory := MemoryAt(flags.value, s[j..]);
      if flags.value / 64 % 2 == 1 {
        UnsignedStays(32, s[j..], t);
      }
      assert MemoryAt(flags.value, s[j..] + t) == memory;
      if memory.Got? {
        assert (s + t)[j + memory.used..] == s[j + memory.used..] + t;
        if Settled(Unsigned(64, s[j + memory.used..])) {
          UnsignedStays(64, s[j + memory.used..], t);
        }
      }
    }
  }

  lemma PairStays(s: seq<byte>, t: seq<byte>)
    requires Settled(PairAt(s))
    ensures PairAt(s + t) == PairAt(s)
  {
    hide Unsigned;
    var a := Unsigned(32, s);
    UnsignedStays(32, s, t);
    if a.Got? {
      assert (s + t)[a.used..] == s[a.used..] + t;
      UnsignedStays(32, s[a.used..], t);
    }
  }

  lemma BlockTypeStays(s: seq<byte>, t: seq<byte>)
    requires Settled(BlockTypeAt(s))
    ensures BlockTypeAt(s + t) == BlockTypeAt(s)
  {
    hide Signed, ValueTypeOf;
    if !(64 <= s[0] < 128) {
      SignedStays(33, s, t);
    }
  }

  lemma FixedStays(size: nat, s: seq<byte>, t: seq<byte>)
    requires Settled(FixedAt(size, s))
    ensures FixedAt(size, s + t) == FixedAt(size, s)
  {
    assert (s + t)[..size] == s[..size];
  }

  lemma ImmStays(shape: Shape, s: seq<byte>, t: seq<byte>)
    requires shape != Illegal && shape != OutOfModel && Settled(ImmAt(shape, s))
    ensures ImmAt(shape, s + t) == ImmAt(shape, s)
  {
    hide Unsigned, Signed, PairAt, BlockTypeAt, TableAt, MemAt, FixedAt;
    match shape
    case NoImm =>
    case OneU32 => UnsignedStays(32, s, t);
    case TwoU32 => PairStays(s, t);
    case BlockTy => BlockTypeStays(s, t);
    case Table => TableStays(s, t);
    case Mem => MemStays(s, t);
    case ConstI32 => SignedStays(32, s, t);
    case ConstI64 => SignedStays(64, s, t);
    case Bits32 => FixedStays(4, s, t);
    case Bits64 => FixedStays(8, s, t);
  }

  lemma OpcodeStays(s: seq<byte>, t: seq<byte>)
    requires Settled(OpcodeAt(s))
    ensures OpcodeAt(s + t) == OpcodeAt(s)
  {
    hide Unsigned;
    if s[0] == 0xfc {
      assert (s + t)[1..] == s[1..] + t;
      UnsignedStays(32, s[1..], t);
    }
  }

  lemma OperatorStays(s: seq<byte>, t: seq<byte>)
    requires Settled(OperatorAt(s))
    ensures OperatorAt(s + t) == OperatorAt(s)
  {
    hide OpcodeAt, ImmAt, Assemble, ShapeOf;
    var code := OpcodeAt(s);
    OpcodeStays(s, t);
    if code.Got? && ShapeOf(code.value) != Illegal && ShapeOf(code.value) != OutOfModel {
      assert (s + t)[code.used..] == s[code.used..] + t;
      ImmStays(ShapeOf(code.value), s[code.used..], t);
    }
  }

  // ----- windows -----

  /**
    Whatever a read of an integer gives inside a window, other than the end of the window, it gives in the whole
    buffer; and whatever integer it gives in the whole buffer from bytes of the window, it gives inside the window.
   */
  lemma UnsignedLocal(n: nat, buffer: seq<byte>, from: nat, to: nat, p: nat)
    requires n > 0 && from <= to <= |buffer| && p <= to - from
    ensures var w, whole := Unsigned(n, buffer[from..to][p..]), Unsigned(n, buffer[from + p..]);
            && (Settled(w) ==> w == whole)
            && (whole.Got? && whole.used <= to - from - p ==> w == whole)
  {
    hide Unsigned;
    var s, d := buffer[from + p..], Unsigned(n, buffer[from + p..]);
    var inside := buffer[from..to][p..];
    assert inside + buffer[to..] == s;
    if Settled(Unsigned(n, inside)) {
      UnsignedStays(n, inside, buffer[to..]);
    }
    if d.Got? && d.used <= to - from - p {
      UnsignedSound(n, s);
      UnsignedComplete(n, s[..d.used], d.value, buffer[from + p + d.used..to]);
      assert s[..d.used] + buffer[from + p + d.used..to] == inside;
    }
  }

  /** The same for every kind of immediate. */
  lemma ImmLocal(shape: Shape, buffer: seq<byte>, from: nat, to: nat, p: nat)
    requires shape != Illegal && shape != OutOfModel && from <= to <= |buffer| && p <= to - from
    ensures var w, whole := ImmAt(shape, buffer[from..to][p..]), ImmAt(shape, buffer[from + p..]);
            && (Settled(w) ==> w == whole)
            && (whole.Got? && whole.used <= to - from - p ==> w == whole)
  {
    hide ImmAt, IsImm;
    var s, d := buffer[from + p..], ImmAt(shape, buffer[from + p..]);
    var inside := buffer[from..to][p..];
    assert inside + buffer[to..] == s;
    if Settled(ImmAt(shape, inside)) {
      ImmStays(shape, inside, buffer[to..]);
    }
    if d.Got? && d.used <= to - from - p {
      ImmSound(shape, s);
      ImmComplete(shape, s[..d.used], d.value, buffer[from + p + d.used..to]);
      assert s[..d.used] + buffer[from + p + d.used..to] == inside;
    }
  }

  /** The same for operators. */
  lemma OperatorLocal(buffer: seq<byte>, from: nat, to: nat, p: nat)
    requires from <= to <= |buffer| && p <= to - from
    ensures var w, whole := OperatorAt(buffer[from..to][p..]), OperatorAt(buffer[from + p..]);
            && (Settled(w) ==> w == whole)
            && (whole.Got? && whole.used <= to - from - p ==> w == whole)
  {
    hide OperatorAt, IsOperator;
    var s, d := buffer[from + p..], OperatorAt(buffer[from + p..]);
    var inside := buffer[from..to][p..];
    assert inside + buffer[to..] == s;
    if Settled(OperatorAt(inside)) {
      OperatorStays(inside, buffer[to..]);
    }
    if d.Got? && d.used <= to - from - p {
      OperatorSound(s);
      OperatorComplete(s[..d.used], d.value, buffer[from + p + d.used..to]);
      assert s[..d.used] + buffer[from + p + d.used..to] == inside;
    }
  }
}
