/** Arithmetic behind the loops of the integer readers: what one more byte contributes. */
module LebLoops {
  import opened Bits
  import opened Decoded
  import opened Leb128

  /** The outcome of a read of which `k` bytes, worth `acc` in the low `shift` bits, are already consumed. */
  function Resume(acc: int, shift: nat, k: nat, rest: Decoded<int>): Decoded<int>
  {
    match rest
    case Got(m, j) => Got(acc + Pow2(shift) * m, k + j)
    case Bad(_, _, _) => rest.Shift(k)
  }

  lemma ResumeStart(d: Decoded<int>)
    ensures Resume(0, 0, 0, d) == d
  {
  }

  /** Taking a continuation byte into the accumulator leaves the final outcome as it was. */
  lemma ResumeContinue(acc: int, shift: nat, k: nat, b: byte, rest: Decoded<int>)
    requires b >= 128
    ensures Resume(acc, shift, k, Continue(b, rest))
            == Resume(acc + Low7(b) * Pow2(shift), shift + 7, k + 1, rest)
  {
    hide Pow2;
    Pow2Add(shift, 7);
    Pow2Values();
    assert Low7(b) == b as int - 128;
    match rest
    case Got(m, j) =>
      Regroup(Pow2(shift), m, Low7(b));
    case Bad(_, _, _) =>
  }

  lemma Regroup(p: int, m: int, x: int)
    ensures p * (128 * m + x) == p * 128 * m + x * p
  {
  }

  /** Or-ing in the shifted low bits of `x` is addition as long as they fit the register. */
  lemma OrIn(width: nat, acc: nat, x: nat, shift: nat)
    requires shift <= width && acc < Pow2(shift) && x < Pow2(width - shift)
    ensures Or(acc, Shl(width, x, shift)) == acc + x * Pow2(shift) < Pow2(width)
  {
    AddBelow(acc, x, shift, width - shift);
    SmallMod(x * Pow2(shift), Pow2(width));
    OrDisjoint(acc, x, shift);
  }

  lemma AddBelow(acc: nat, x: nat, shift: nat, bits: nat)
    requires acc < Pow2(shift) && x < Pow2(bits)
    ensures acc + x * Pow2(shift) < Pow2(shift + bits)
  {
    hide Pow2;
    Pow2Add(shift, bits);
    DigitBelow(acc, x, Pow2(shift), Pow2(bits));
  }

  lemma DigitBelow(acc: nat, x: nat, p: nat, q: nat)
    requires acc < p && x < q
    ensures acc + x * p < p * q
  {
    MulOrder(q, x + 1, p);
    Regroup(p, 0, q);
    Distribute(x, 1, 1, p);
  }

  /** The sign of `acc + b * 2^shift`, read as `shift + 7` bits, is bit 6 of `b`. */
  lemma SignOfTop(acc: nat, b: byte, shift: nat)
    requires acc < Pow2(shift) && b < 128
    ensures acc + b * Pow2(shift) < Pow2(shift + 7)
    ensures AsSigned(shift + 7, acc + b * Pow2(shift))
            == acc + Pow2(shift) * (if b < 64 then b else b as int - 128)
  {
    assert Pow2(7) == 128 && Pow2(6) == 64;
    AddBelow(acc, b, shift, 7);
    Pow2Add(shift, 7);
    Pow2Add(shift, 6);
    if b < 64 {
      AddBelow(acc, b, shift, 6);
    } else {
      MulOrder(b, 64, Pow2(shift));
    }
  }

  /** The sign-and-unused-bits test of the last byte, for the widths at which it is applied. */
  lemma SignTest(b: byte, n: nat)
    requires b < 128 && (n == 1 || n == 4 || n == 5)
    ensures Sar(DoubledAsI8(b), n) == 0 <==> b < 64 && b < Pow2(n - 1)
    ensures Sar(DoubledAsI8(b), n) == -1 <==> b >= 64 && b >= 128 - Pow2(n - 1)
  {
    hide Pow2;
    Pow2Values();
    assert DoubledAsI8(b) == if b < 64 then 2 * b else 2 * b - 256;
    if n == 1 {
      SignShift(b, 1);
    } else if n == 4 {
      SignShift(b, 8);
    } else {
      SignShift(b, 16);
    }
  }

  lemma SignShift(b: byte, half: nat)
    requires b < 128 && (half == 1 || half == 8 || half == 16)
    ensures var d := if b < 64 then 2 * b else 2 * b - 256;
            && (d / (2 * half) == 0 <==> b < 64 && b < half)
            && (d / (2 * half) == -1 <==> b >= 64 && b >= 128 - half)
  {
  }

  /**
    The pattern returned without sign extension when the register is as wide as
    the integer: the bits lost by the shift are copies of the sign.
   */
  lemma TopByteFills(width: nat, acc: nat, b: byte, shift: nat)
    requires (width == 32 && shift == 28) || (width == 64 && shift == 63)
    requires acc < Pow2(shift) && b < 128
    requires b < Pow2(width - shift - 1) || b >= 128 - Pow2(width - shift - 1)
    ensures Or(acc, Shl(width, b, shift)) < Pow2(width)
    ensures AsSigned(width, Or(acc, Shl(width, b, shift)))
            == acc + Pow2(shift) * (if b < 64 then b else b as int - 128)
  {
    hide Or, Shl, Pow2;
    Pow2Values();
    var half: nat := if width == 32 then 8 else 1;
    var r: nat := if width == 32 then b % 16 else b % 2;
    ShlTop(b, if width == 32 then b / 16 else b / 2, r, 2 * half, shift, width);
    OrDisjoint(acc, r, shift);
    TopSign(acc, b, r, half, Pow2(shift));
  }

  /** Read as a signed pattern, the kept part `r` of the last byte counts as the whole byte. */
  lemma TopSign(acc: nat, b: byte, r: nat, half: nat, p: nat)
    requires acc < p && b < 128 && r < 2 * half && 0 < half <= 64
    requires (b < half && r == b) || (b >= 128 - half && r == b - 128 + 2 * half)
    ensures acc + r * p < 2 * (half * p)
    ensures (if acc + r * p < half * p then acc + r * p else acc + r * p - 2 * (half * p))
         == acc + p * (if b < 64 then b else b as int - 128)
  {
    DigitBelow(acc, r, p, 2 * half);
    Distribute(2, half, 0, p);
    if b < half {
      DigitBelow(acc, b, p, half);
      Regroup(p, 0, b);
    } else {
      MulOrder(r, half, p);
      Distribute(1, r, -2 * half, p);
      Regroup(p, 0, b - 128);
    }
  }

  /** Of `b << shift` only the part of `b` below `keep` stays in the register. */
  lemma ShlTop(b: nat, q: nat, r: nat, keep: nat, shift: nat, width: nat)
    requires b == q * keep + r && r < keep && Pow2(width) == keep * Pow2(shift)
    ensures Shl(width, b, shift) == r * Pow2(shift)
  {
    var p := Pow2(shift);
    Distribute(q, keep, r, p);
    MulOrder(r, keep, p);
    ModSplit(q, r * p, keep * p);
  }

  lemma Distribute(q: int, k: int, r: int, p: int)
    ensures (q * k + r) * p == q * (k * p) + r * p
  {
  }

  lemma ModSplit(q: int, r: nat, m: nat)
    requires r < m
    ensures (q * m + r) % m == r
  {
    var q', r' := (q * m + r) / m, (q * m + r) % m;
    if r' >= r {
      assert (q - q') * m == r' - r;
      MultipleBelow(q - q', m);
    } else {
      assert (q' - q) * m == r - r';
      MultipleBelow(q' - q, m);
    }
  }

  // ----- one turn of the unsigned loops, for 32 and 64 bits -----

  lemma UnsignedEnter(n: nat, s: seq<byte>)
    requires n > 7 && s != [] && More(s[0])
    ensures Low7(s[0]) < Pow2(7)
    ensures Unsigned(n, s) == Resume(Low7(s[0]), 7, 1, Unsigned(n - 7, s[1..]))
  {
    hide Pow2, Resume;
    Pow2Values();
    ResumeStart(Unsigned(n, s));
    ResumeContinue(0, 0, 0, s[0], Unsigned(n - 7, s[1..]));
  }

  /** What the next byte does to a read of `width` bits of which the low `shift` are in `acc`. */
  lemma UnsignedStep(width: nat, acc: nat, shift: nat, k: nat, rest: seq<byte>)
    requires (width == 32 && shift <= 28) || (width == 64 && shift <= 63)
    requires acc < Pow2(shift) && rest != []
    ensures var b, result := rest[0], Or(acc, Shl(width, Low7(rest[0]), shift));
            var outcome := Resume(acc, shift, k, Unsigned(width - shift, rest));
            if shift >= width - 7 && b / Pow2(width - shift) != 0 then
              outcome == Bad(if More(b) then TooLong else TooLarge, k + 1, k)
            else if More(b) then
              shift <= width - 8 && result < Pow2(shift + 7) &&
              outcome == Resume(result, shift + 7, k + 1, Unsigned(width - shift - 7, rest[1..]))
            else
              outcome == Got(result, k + 1)
  {
    hide Pow2, Or, Shl, Unsigned, Resume;
    var b, n := rest[0], width - shift;
    DivNonzero(b, Pow2(n));
    if n <= 7 && b >= Pow2(n) {
      UnsignedRefused(n, acc, shift, k, rest);
    } else if More(b) {
      SevenMore(n, b);
      UnsignedMore(width, acc, shift, k, rest);
    } else {
      SevenMore(n, b);
      UnsignedFinal(width, acc, shift, k, rest);
    }
  }

  /** A byte that passes the test of the unused bits fits what is missing; a continuation then leaves bits missing. */
  lemma SevenMore(n: nat, b: byte)
    requires n <= 7 ==> b < Pow2(n)
    ensures More(b) ==> n > 7
    ensures Low7(b) < Pow2(n) && Low7(b) < Pow2(7)
  {
    hide Pow2;
    Pow2Values();
    if n <= 7 {
      Pow2Monotone(n, 7);
    } else {
      Pow2Monotone(7, n);
    }
  }

  lemma UnsignedRefused(n: nat, acc: nat, shift: nat, k: nat, rest: seq<byte>)
    requires n <= 7 && rest != [] && rest[0] >= Pow2(n)
    ensures Resume(acc, shift, k, Unsigned(n, rest)) == Bad(if More(rest[0]) then TooLong else TooLarge, k + 1, k)
  {
  }

  lemma UnsignedMore(width: nat, acc: nat, shift: nat, k: nat, rest: seq<byte>)
    requires shift + 7 < width && acc < Pow2(shift) && rest != [] && More(rest[0])
             && Low7(rest[0]) < Pow2(width - shift)
    requires Low7(rest[0]) < Pow2(7)
    ensures var result := Or(acc, Shl(width, Low7(rest[0]), shift));
            && result < Pow2(shift + 7)
            && Resume(acc, shift, k, Unsigned(width - shift, rest))
            == Resume(result, shift + 7, k + 1, Unsigned(width - shift - 7, rest[1..]))
  {
    hide Pow2, Or, Shl, Resume, Unsigned, Continue;
    OrIn(width, acc, Low7(rest[0]), shift);
    AddBelow(acc, Low7(rest[0]), shift, 7);
    UnsignedTail(width - shift, rest);
    ResumeContinue(acc, shift, k, rest[0], Unsigned(width - shift - 7, rest[1..]));
  }

  lemma UnsignedTail(n: nat, rest: seq<byte>)
    requires n > 7 && rest != [] && More(rest[0])
    ensures Unsigned(n, rest) == Continue(rest[0], Unsigned(n - 7, rest[1..]))
  {
  }

  lemma UnsignedFinal(width: nat, acc: nat, shift: nat, k: nat, rest: seq<byte>)
    requires shift <= width && acc < Pow2(shift) && rest != [] && !More(rest[0]) && Low7(rest[0]) < Pow2(width - shift)
    ensures Resume(acc, shift, k, Unsigned(width - shift, rest))
            == Got(Or(acc, Shl(width, Low7(rest[0]), shift)), k + 1)
  {
    hide Pow2, Or, Shl;
    OrIn(width, acc, Low7(rest[0]), shift);
    assert Unsigned(width - shift, rest) == Got(rest[0], 1);
  }

  // ----- one turn of the signed loops -----

  lemma SignedEnter(n: nat, s: seq<byte>)
    requires n > 7 && s != [] && More(s[0])
    ensures Low7(s[0]) < Pow2(7)
    ensures Signed(n, s) == Resume(Low7(s[0]), 7, 1, Signed(n - 7, s[1..]))
  {
    hide Pow2, Resume;
    Pow2Values();
    ResumeStart(Signed(n, s));
    ResumeContinue(0, 0, 0, s[0], Signed(n - 7, s[1..]));
  }

  /** A byte that cannot be the last one allowed: `n > 7` bits are still missing. */
  lemma SignedStep(width: nat, n: nat, acc: nat, shift: nat, k: nat, rest: seq<byte>)
    requires n > 7 && shift + 7 <= width && acc < Pow2(shift) && rest != []
    ensures var b, result := rest[0], Or(acc, Shl(width, Low7(rest[0]), shift));
            var outcome := Resume(acc, shift, k, Signed(n, rest));
            result < Pow2(shift + 7) &&
            if More(b) then
              outcome == Resume(result, shift + 7, k + 1, Signed(n - 7, rest[1..]))
            else
              outcome == Got(AsSigned(shift + 7, result), k + 1)
  {
    hide Pow2, Or, Shl, AsSigned, Resume, Signed;
    if More(rest[0]) {
      SignedMore(width, n, acc, shift, k, rest);
    } else {
      SignedEnd(width, n, acc, shift, k, rest);
    }
  }

  /** The register after one more byte. */
  lemma SevenIn(width: nat, acc: nat, shift: nat, x: nat)
    requires shift + 7 <= width && acc < Pow2(shift) && x < 128
    ensures Or(acc, Shl(width, x, shift)) == acc + x * Pow2(shift) < Pow2(shift + 7)
  {
    hide Pow2, Or, Shl;
    Pow2Monotone(7, width - shift);
    Pow2Values();
    OrIn(width, acc, x, shift);
    AddBelow(acc, x, shift, 7);
  }

  lemma SignedMore(width: nat, n: nat, acc: nat, shift: nat, k: nat, rest: seq<byte>)
    requires n > 7 && shift + 7 <= width && acc < Pow2(shift) && rest != [] && More(rest[0])
    ensures var result := Or(acc, Shl(width, Low7(rest[0]), shift));
            && result < Pow2(shift + 7)
            && Resume(acc, shift, k, Signed(n, rest)) == Resume(result, shift + 7, k + 1, Signed(n - 7, rest[1..]))
  {
    hide Pow2, Or, Shl, Resume, Signed, Continue;
    SevenIn(width, acc, shift, Low7(rest[0]));
    SignedTail(n, rest);
    ResumeContinue(acc, shift, k, rest[0], Signed(n - 7, rest[1..]));
  }

  lemma SignedEnd(width: nat, n: nat, acc: nat, shift: nat, k: nat, rest: seq<byte>)
    requires n > 7 && shift + 7 <= width && acc < Pow2(shift) && rest != [] && !More(rest[0])
    ensures var result := Or(acc, Shl(width, Low7(rest[0]), shift));
            && result < Pow2(shift + 7)
            && Resume(acc, shift, k, Signed(n, rest)) == Got(AsSigned(shift + 7, result), k + 1)
  {
    hide Pow2, Or, Shl, AsSigned, Resume, Signed;
    assert Low7(rest[0]) == rest[0];
    SevenIn(width, acc, shift, rest[0]);
    SignOfTop(acc, rest[0], shift);
    SignedFinal(n, acc, shift, k, rest);
  }

  lemma SignedTail(n: nat, rest: seq<byte>)
    requires n > 7 && rest != [] && More(rest[0])
    ensures Signed(n, rest) == Continue(rest[0], Signed(n - 7, rest[1..]))
  {
  }

  lemma SignedFinal(n: nat, acc: nat, shift: nat, k: nat, rest: seq<byte>)
    requires n > 7 && rest != [] && !More(rest[0])
    ensures Resume(acc, shift, k, Signed(n, rest))
         == Got(acc + Pow2(shift) * (if rest[0] < 64 then rest[0] else rest[0] as int - 128), k + 1)
  {
    hide Pow2;
    Pow2Values();
    Pow2Monotone(7, n - 1);
  }

  /** The last byte allowed, with its test of the sign and the unused bits. */
  lemma SignedLast(n: nat, acc: nat, shift: nat, k: nat, rest: seq<byte>)
    requires (n == 1 || n == 4 || n == 5) && rest != []
    ensures var b := rest[0];
            var outcome := Resume(acc, shift, k, Signed(n, rest));
            var unused := Sar(DoubledAsI8(b), n);
            if More(b) || (unused != 0 && unused != -1) then
              outcome == Bad(if More(b) then TooLong else TooLarge, k + 1, k)
            else
              && outcome == Got(acc + Pow2(shift) * (if b < 64 then b else b as int - 128), k + 1)
              && (b < Pow2(n - 1) || b >= 128 - Pow2(n - 1))
  {
    hide Sar, DoubledAsI8;
    if !More(rest[0]) {
      SignTest(rest[0], n);
    }
  }

  /** The same where the register is as wide as the integer. */
  lemma SignedTop(width: nat, acc: nat, shift: nat, k: nat, rest: seq<byte>)
    requires (width == 32 && shift == 28) || (width == 64 && shift == 63)
    requires acc < Pow2(shift) && rest != []
    ensures var b := rest[0];
            var outcome := Resume(acc, shift, k, Signed(width - shift, rest));
            var unused := Sar(DoubledAsI8(b), width - shift);
            var result := Or(acc, Shl(width, Low7(b), shift));
            if More(b) || (unused != 0 && unused != -1) then
              outcome == Bad(if More(b) then TooLong else TooLarge, k + 1, k)
            else
              result < Pow2(width) && outcome == Got(AsSigned(width, result), k + 1)
  {
    hide Signed, Resume, Or, Shl, Pow2, Sar, DoubledAsI8, AsSigned;
    var unused := Sar(DoubledAsI8(rest[0]), width - shift);
    SignedLast(width - shift, acc, shift, k, rest);
    if !More(rest[0]) && (unused == 0 || unused == -1) {
      TopByteFills(width, acc, rest[0], shift);
    }
  }

  lemma SignedOneByte(n: nat, s: seq<byte>)
    requires n > 7 && s != [] && !More(s[0])
    ensures s[0] < Pow2(7) && Signed(n, s) == Got(AsSigned(7, s[0]), 1)
  {
    Pow2Values();
    Pow2Monotone(7, n - 1);
  }

  /** In a 64-bit register five bytes leave the sign at bit 34 unextended. */
  lemma UnextendedTop(acc: nat, b: byte)
    requires acc < Pow2(28) && b < 128
    ensures Or(acc, Shl(64, b, 28)) == acc + b * Pow2(28)
    ensures acc + b * Pow2(28) ==
            var v := acc + Pow2(28) * (if b < 64 then b else b as int - 128);
            if v < 0 then v + 0x8_0000_0000 else v
  {
    hide Or, Shl, Pow2;
    Pow2Values();
    Pow2Monotone(7, 36);
    OrIn(64, acc, b, 28);
  }

  /** A single byte through an 8-bit register. */
  lemma OneByteS33(s: seq<byte>)
    requires s != [] && !More(s[0])
    ensures Signed(33, s) == Got(Sar(AsSigned(8, Shl(8, s[0], 1)), 1), 1)
  {
    hide Sar, Shl, AsSigned, Signed;
    SignedOneByte(33, s);
    SignExtends(8, 7, s[0]);
  }

  /** The fifth byte of an s33, whose pattern is returned as it stands. */
  lemma LastByteS33(acc: nat, rest: seq<byte>)
    requires acc < Pow2(28) && rest != []
    ensures var b, unused := rest[0], Sar(DoubledAsI8(rest[0]), 5);
            var outcome := Resume(acc, 28, 4, Signed(5, rest));
            if More(b) || (unused != 0 && unused != -1) then
              outcome == Bad(if More(b) then TooLong else TooLarge, 5, 4)
            else
              outcome.Got? && outcome.used == 5 &&
              Or(acc, Shl(64, Low7(b), 28))
                  == if outcome.value < 0 then outcome.value + 0x8_0000_0000 else outcome.value
  {
    hide Sar, DoubledAsI8, Or, Shl, Pow2, Signed, Resume;
    SignedLast(5, acc, 28, 4, rest);
    if !More(rest[0]) {
      UnextendedTop(acc, rest[0]);
    }
  }

  lemma StepAtEnd(n: nat, acc: int, shift: nat, k: nat)
    requires n > 0
    ensures Resume(acc, shift, k, Unsigned(n, [])) == Bad(UnexpectedEof, k, k)
    ensures Resume(acc, shift, k, Signed(n, [])) == Bad(UnexpectedEof, k, k)
  {
  }

  lemma DivNonzero(b: nat, p: nat)
    requires p > 0
    ensures b / p != 0 <==> b >= p
  {
    if b >= p {
      assert b == b / p * p + b % p;
    }
  }
}
