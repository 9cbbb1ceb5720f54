/**
  Variable-length integers: the grammar of section 5.2.2 of the WebAssembly Core
  Specification 2.0 and a left-to-right decoder for it.
 */
module Leb128 {
  import opened Bits
  import opened Decoded

  /** `bytes` is an encoding of `v` as an unsigned integer of `n` bits. */
  ghost predicate IsUnsigned(n: nat, bytes: seq<byte>, v: int)
    decreases bytes
  {
    bytes != [] &&
    if |bytes| == 1 then
      bytes[0] < 128 && bytes[0] < Pow2(n) && v == bytes[0]
    else
      bytes[0] >= 128 && n > 7 &&
      exists m: int :: IsUnsigned(n - 7, bytes[1..], m) && v == 128 * m + (bytes[0] as int - 128)
  }

  /** `bytes` is an encoding of `v` as a signed integer of `n` bits. */
  ghost predicate IsSigned(n: nat, bytes: seq<byte>, v: int)
    requires n > 0
    decreases bytes
  {
    bytes != [] &&
    if |bytes| == 1 then
      || (bytes[0] < 64 && bytes[0] < Pow2(n - 1) && v == bytes[0])
      || (64 <= bytes[0] < 128 && bytes[0] >= 128 - Pow2(n - 1) && v == bytes[0] as int - 128)
    else
      bytes[0] >= 128 && n > 7 &&
      exists m: int :: IsSigned(n - 7, bytes[1..], m) && v == 128 * m + (bytes[0] as int - 128)
  }

  /** What a continuation byte `b` makes of the integer that follows it. */
  function Continue(b: byte, rest: Decoded<int>): Decoded<int>
    requires b >= 128
  {
    match rest
    case Got(m, k) => Got(128 * m + (b as int - 128), k + 1)
    case Bad(_, _, _) => rest.Shift(1)
  }

  function Unsigned(n: nat, s: seq<byte>): (d: Decoded<int>)
    ensures d.used <= |s|
    ensures d.Got? ==> d.value >= 0
    decreases s
  {
    if s == [] then Bad(UnexpectedEof, 0, 0)
    else if s[0] < 128 then
      if s[0] < Pow2(n) then Got(s[0], 1) else Bad(TooLarge, 1, 0)
    else if n <= 7 then Bad(TooLong, 1, 0)
    else Continue(s[0], Unsigned(n - 7, s[1..]))
  }

  function Signed(n: nat, s: seq<byte>): (d: Decoded<int>)
    requires n > 0
    ensures d.used <= |s|
    decreases s
  {
    if s == [] then Bad(UnexpectedEof, 0, 0)
    else if s[0] < 128 then
      if s[0] < 64 && s[0] < Pow2(n - 1) then Got(s[0], 1)
      else if s[0] >= 64 && s[0] >= 128 - Pow2(n - 1) then Got(s[0] as int - 128, 1)
      else Bad(TooLarge, 1, 0)
    else if n <= 7 then Bad(TooLong, 1, 0)
    else Continue(s[0], Signed(n - 7, s[1..]))
  }

  // ----- the decoders accept exactly the grammar -----

  /** Every string of the grammar is decoded to the integer it denotes, whatever follows it. */
  lemma {:induction false} UnsignedComplete(n: nat, bytes: seq<byte>, v: int, t: seq<byte>)
    requires IsUnsigned(n, bytes, v)
    ensures Unsigned(n, bytes + t) == Got(v, |bytes|)
    decreases bytes
  {
    if |bytes| > 1 {
      var m: int :| IsUnsigned(n - 7, bytes[1..], m) && v == 128 * m + (bytes[0] as int - 128);
      UnsignedComplete(n - 7, bytes[1..], m, t);
      assert (bytes + t)[1..] == bytes[1..] + t;
    }
  }

  /** Whatever is decoded was a string of the grammar. */
  lemma {:induction false} UnsignedSound(n: nat, s: seq<byte>)
    requires n > 0 && Unsigned(n, s).Got?
    ensures 0 < Unsigned(n, s).used && IsUnsigned(n, s[..Unsigned(n, s).used], Unsigned(n, s).value)
    ensures 0 <= Unsigned(n, s).value < Pow2(n)
    ensures Unsigned(n, s).used <= (n + 6) / 7
    decreases s
  {
    if s[0] >= 128 {
      UnsignedSound(n - 7, s[1..]);
      var d := Unsigned(n - 7, s[1..]);
      assert s[..d.used + 1][1..] == s[1..][..d.used];
      Pow2Add(7, n - 7);
    }
  }

  lemma {:induction false} SignedComplete(n: nat, bytes: seq<byte>, v: int, t: seq<byte>)
    requires n > 0 && IsSigned(n, bytes, v)
    ensures Signed(n, bytes + t) == Got(v, |bytes|)
    decreases bytes
  {
    if |bytes| > 1 {
      var m: int :| IsSigned(n - 7, bytes[1..], m) && v == 128 * m + (bytes[0] as int - 128);
      SignedComplete(n - 7, bytes[1..], m, t);
      assert (bytes + t)[1..] == bytes[1..] + t;
    }
  }

  lemma {:induction false} SignedSound(n: nat, s: seq<byte>)
    requires n > 0 && Signed(n, s).Got?
    ensures 0 < Signed(n, s).used && IsSigned(n, s[..Signed(n, s).used], Signed(n, s).value)
    ensures -(Pow2(n - 1) as int) <= Signed(n, s).value < Pow2(n - 1)
    ensures Signed(n, s).used <= (n + 6) / 7
    decreases s
  {
    if s[0] >= 128 {
      SignedSound(n - 7, s[1..]);
      var d := Signed(n - 7, s[1..]);
      assert s[..d.used + 1][1..] == s[1..][..d.used];
      assert Pow2(n - 1) == 128 * Pow2(n - 8) by { Pow2Add(7, n - 8); }
    }
  }

  /** A decoder never looks further than `ceil(n / 7)` bytes, whatever the outcome. */
  lemma {:induction false} UnsignedBounded(n: nat, s: seq<byte>)
    requires n > 0
    ensures Unsigned(n, s).used <= (n + 6) / 7
    decreases s
  {
    if s != [] && s[0] >= 128 && n > 7 {
      UnsignedBounded(n - 7, s[1..]);
    }
  }

  lemma {:induction false} SignedBounded(n: nat, s: seq<byte>)
    requires n > 0
    ensures Signed(n, s).used <= (n + 6) / 7
    decreases s
  {
    if s != [] && s[0] >= 128 && n > 7 {
      SignedBounded(n - 7, s[1..]);
    }
  }

  // ----- refusals -----

  /** The first `k` bytes say that more follows. */
  predicate Continues(s: seq<byte>, k: nat)
  {
    k <= |s| && forall i :: 0 <= i < k ==> s[i] >= 128
  }

  /**
    Which error is reported and where: the end of input behind the last byte; too long at the last byte there is
    room for, if that announces another; too large at the first byte that ends the integer, if its bits do not fit.
   */
  lemma {:induction false} UnsignedRefused(n: nat, s: seq<byte>, k: nat)
    requires n > 0 && Continues(s, k)
    ensures k == |s| && 7 * k < n ==> Unsigned(n, s) == Bad(UnexpectedEof, k, k)
    ensures k > 0 && 7 * (k - 1) < n <= 7 * k ==> Unsigned(n, s) == Bad(TooLong, k, k - 1)
    ensures k < |s| && 7 * k < n && s[k] < 128 ==>
              var room := Pow2(n - 7 * k);
              if s[k] < room then Unsigned(n, s).Got? && Unsigned(n, s).used == k + 1
              else Unsigned(n, s) == Bad(TooLarge, k + 1, k)
    decreases k
  {
    hide Pow2;
    if k > 0 {
      assert s[0] >= 128;
      if n > 7 {
        assert n - 7 - 7 * (k - 1) == n - 7 * k;
        UnsignedRefused(n - 7, s[1..], k - 1);
        assert Unsigned(n, s) == Continue(s[0], Unsigned(n - 7, s[1..]));
        assert k < |s| ==> s[k] == s[1..][k - 1];
      }
    }
  }

  /** For a signed integer the bits that do not fit must repeat the sign. */
  lemma {:induction false} SignedRefused(n: nat, s: seq<byte>, k: nat)
    requires n > 0 && Continues(s, k)
    ensures k == |s| && 7 * k < n ==> Signed(n, s) == Bad(UnexpectedEof, k, k)
    ensures k > 0 && 7 * (k - 1) < n <= 7 * k ==> Signed(n, s) == Bad(TooLong, k, k - 1)
    ensures k < |s| && 7 * k < n && s[k] < 128 ==>
              var room := Pow2(n - 7 * k - 1);
              if (s[k] < 64 && s[k] < room) || (s[k] >= 64 && s[k] as int >= 128 - room)
              then Signed(n, s).Got? && Signed(n, s).used == k + 1
              else Signed(n, s) == Bad(TooLarge, k + 1, k)
    decreases k
  {
    hide Pow2;
    if k > 0 {
      assert s[0] >= 128;
      if n > 7 {
        assert n - 7 - 7 * (k - 1) == n - 7 * k;
        SignedRefused(n - 7, s[1..], k - 1);
      }
    }
  }
}
