/** Machine arithmetic of the byte readers, written out over integers. */
module Bits {

  type byte = b: int | 0 <= b < 256

  function Pow2(n: nat): (p: nat)
    ensures p > 0
  {
    if n == 0 then 1 else 2 * Pow2(n - 1)
  }

  /** Bitwise or of two bit patterns. */
  function Or(a: nat, b: nat): (r: nat)
  {
    if a == 0 then b
    else if b == 0 then a
    else 2 * Or(a / 2, b / 2) + (if a % 2 == 1 || b % 2 == 1 then 1 else 0)
  }

  /** `x << k` in a register of `width` bits: the bits that do not fit are lost. */
  function Shl(width: nat, x: nat, k: nat): (r: nat)
    ensures r < Pow2(width)
  {
    ModBelow(x * Pow2(k), Pow2(width));
    (x * Pow2(k)) % Pow2(width)
  }

  lemma ModBelow(x: nat, m: nat)
    requires m > 0
    ensures 0 <= x % m < m
  {
  }

  /** The two's complement reading of a `width`-bit pattern. */
  function AsSigned(width: nat, x: nat): int
    requires width > 0 && x < Pow2(width)
  {
    if x < Pow2(width - 1) then x else x - Pow2(width)
  }

  /** Arithmetic `v >> k`, which rounds down. */
  function Sar(v: int, k: nat): int
  {
    v / Pow2(k)
  }

  /** `b & 0x7F` */
  function Low7(b: byte): nat
  {
    b % 128
  }

  /** `b & 0x80 != 0` */
  predicate More(b: byte)
  {
    b >= 128
  }

  /** `(b << 1) as i8`: the continuation bit is shifted out. */
  function DoubledAsI8(b: byte): int
  {
    AsSigned(8, 2 * b % 256)
  }

  // ----- facts -----

  lemma Pow2Add(a: nat, b: nat)
    ensures Pow2(a + b) == Pow2(a) * Pow2(b)
  {
    if a > 0 {
      Pow2Add(a - 1, b);
      assert Pow2(a + b) == 2 * Pow2(a - 1 + b);
    }
  }

  lemma Pow2Values()
    ensures Pow2(0) == 1 && Pow2(1) == 2 && Pow2(3) == 8 && Pow2(4) == 16 && Pow2(5) == 32 && Pow2(6) == 64
    ensures Pow2(7) == 128 && Pow2(8) == 256
    ensures Pow2(28) == 0x1000_0000 && Pow2(31) == 0x8000_0000 && Pow2(32) == 0x1_0000_0000
    ensures Pow2(35) == 0x8_0000_0000
    ensures Pow2(63) == 0x8000_0000_0000_0000 && Pow2(64) == 0x1_0000_0000_0000_0000
  {
    assert Pow2(7) == 128 && Pow2(8) == 256;
    Pow2Add(7, 7);
    Pow2Add(14, 14);
    Pow2Add(28, 3);
    Pow2Add(31, 1);
    Pow2Add(28, 7);
    Pow2Add(32, 31);
    Pow2Add(32, 32);
  }

  lemma Pow2Monotone(a: nat, b: nat)
    requires a <= b
    ensures Pow2(a) <= Pow2(b)
  {
    if a < b {
      Pow2Monotone(a, b - 1);
    }
  }

  /** Or-ing in bits above the ones already present is addition. */
  lemma {:induction false} OrDisjoint(a: nat, m: nat, k: nat)
    requires a < Pow2(k)
    ensures Or(a, m * Pow2(k)) == a + m * Pow2(k)
  {
    if k > 0 && a > 0 && m > 0 {
      var h := m * Pow2(k - 1);
      assert m * Pow2(k) == 2 * h;
      OrDisjoint(a / 2, m, k - 1);
      assert 2 * h / 2 == h && 2 * h % 2 == 0;
    } else if m == 0 {
      assert m * Pow2(k) == 0;
    }
  }

  /** Shifting left and back by `width - k` sign-extends a `k`-bit pattern. */
  lemma SignExtends(width: nat, k: nat, x: nat)
    requires 0 < k <= width && x < Pow2(k)
    ensures Sar(AsSigned(width, Shl(width, x, width - k)), width - k) == AsSigned(k, x)
  {
    Pow2Add(k - 1, width - k);
    var xp := ShlFits(width, k, x);
    ScaledSign(x, Pow2(k - 1), Pow2(width - k), xp, Pow2(width - 1));
  }

  lemma ShlFits(width: nat, k: nat, x: nat) returns (xp: nat)
    requires 0 < k <= width && x < Pow2(k)
    ensures xp == x * Pow2(width - k) && xp < Pow2(width)
    ensures Shl(width, x, width - k) == xp
  {
    xp := x * Pow2(width - k);
    Pow2Add(k, width - k);
    MulOrder(x, Pow2(k), Pow2(width - k));
    SmallMod(xp, Pow2(width));
  }

  lemma ScaledSign(x: nat, half: nat, p: nat, xp: nat, hp: nat)
    requires p > 0 && xp == x * p && hp == half * p
    ensures (if xp < hp then xp else xp - 2 * hp) / p == if x < half then x else x - 2 * half
  {
    MulOrder(x, half, p);
    DivExact(x, p);
    DivExact(x - 2 * half, p);
    assert (x - 2 * half) * p == xp - 2 * hp;
  }

  lemma MulOrder(a: int, b: int, p: nat)
    requires p > 0
    ensures a < b <==> a * p < b * p
  {
    if a < b {
      assert (b - a) * p > 0;
    } else {
      assert (a - b) * p >= 0;
    }
  }

  lemma SmallMod(x: nat, m: nat)
    requires x < m
    ensures x % m == x
  {
  }

  lemma DivExact(x: int, p: nat)
    requires p > 0
    ensures x * p / p == x
  {
    var q := x * p / p;
    assert (x - q) * p == x * p % p;
    MultipleBelow(x - q, p);
  }

  lemma MultipleBelow(d: int, p: nat)
    requires 0 <= d * p < p
    ensures d == 0
  {
    MulOrder(d, 1, p);
    MulOrder(-1, d, p);
  }
}
