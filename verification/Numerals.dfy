/** Decimal numerals: writing a number, and reading one back. */
module Numerals {
  /** The decimal numeral of `n`. */
  function Decimal(n: nat): string
  {
    var digit := ['0' + (n % 10) as char];
    if n < 10 then digit else Decimal(n / 10) + digit
  }

  predicate AllDigits(text: string)
  {
    text != "" && forall c <- text :: '0' <= c <= '9'
  }

  function Digit(c: char): nat
  {
    if '0' <= c <= '9' then (c - '0') as nat else 0
  }

  function DecimalValue(text: string): nat
  {
    if text == "" then 0 else 10 * DecimalValue(text[..|text| - 1]) + Digit(text[|text| - 1])
  }

  lemma {:induction false} DecimalDigits(n: nat)
    ensures Decimal(n) != "" && forall c <- Decimal(n) :: '0' <= c <= '9'
  {
    if n >= 10 {
      DecimalDigits(n / 10);
    }
  }

  lemma {:induction false} DecimalInjective(a: nat, b: nat)
    requires Decimal(a) == Decimal(b)
    ensures a == b
  {
    ReadWritten(a);
    ReadWritten(b);
  }

  /** The ten digits, and one digit more than a numeral has. */
  lemma DecimalMeaning(n: nat, d: nat)
    requires d < 10
    ensures Decimal(d) == ["0123456789"[d]]
    ensures n > 0 ==> Decimal(10 * n + d) == Decimal(n) + Decimal(d)
  {
  }

  /** Reading undoes writing. */
  lemma {:induction false} ReadWritten(n: nat)
    ensures AllDigits(Decimal(n)) && DecimalValue(Decimal(n)) == n
  {
    var text := Decimal(n);
    var last := text[|text| - 1];
    DecimalDigits(n);
    assert Digit(last) == n % 10;
    if n >= 10 {
      assert text[..|text| - 1] == Decimal(n / 10);
      ReadWritten(n / 10);
    } else {
      assert text[..|text| - 1] == "";
    }
  }

  function Zeros(k: nat): string
  {
    seq(k, _ => '0')
  }

  /** Zeros in front do not count. */
  lemma {:induction false} LeadingZeros(k: nat, text: string)
    ensures DecimalValue(Zeros(k) + text) == DecimalValue(text)
    decreases k + |text|
  {
    var whole := Zeros(k) + text;
    if text != "" {
      assert whole[..|whole| - 1] == Zeros(k) + text[..|text| - 1];
      LeadingZeros(k, text[..|text| - 1]);
    } else if k > 0 {
      assert whole[..|whole| - 1] == Zeros(k - 1) + "";
      LeadingZeros(k - 1, "");
    } else {
      assert whole == "";
    }
  }

  /** A text of digits is the numeral of its value behind some zeros, and nothing else is. */
  lemma {:induction false} NumeralExactly(text: string, n: nat)
    ensures AllDigits(text) && DecimalValue(text) == n <==> exists k :: text == Zeros(k) + Decimal(n)
    decreases |text|
  {
    if AllDigits(text) && DecimalValue(text) == n {
      var k := Padding(text);
    }
    if k :| text == Zeros(k) + Decimal(n) {
      ReadWritten(n);
      LeadingZeros(k, Decimal(n));
    }
  }

  lemma ValueStep(text: string, last: char)
    requires '0' <= last <= '9'
    ensures Digit(last) < 10 && [last] == Decimal(Digit(last))
    ensures DecimalValue(text + [last]) == 10 * DecimalValue(text) + Digit(last) && DecimalValue("") == 0
  {
    assert (text + [last])[..|text|] == text;
  }

  lemma ZerosStep(k: nat)
    ensures Zeros(k) + Decimal(0) == Zeros(k + 1) && Zeros(0) == ""
  {
  }

  lemma {:induction false} Padding(text: string) returns (k: nat)
    requires AllDigits(text)
    ensures text == Zeros(k) + Decimal(DecimalValue(text))
    decreases |text|
  {
    hide Decimal, DecimalValue, Digit, Zeros;
    var front, last := text[..|text| - 1], text[|text| - 1];
    assert last in text && text == front + [last];
    ValueStep(front, last);
    ZerosStep(0);
    if front == "" {
      k := 0;
    } else {
      assert forall c <- front :: c in text;
      k := Padding(front);
      var v, d := DecimalValue(front), Digit(last);
      DecimalMeaning(v, d);
      if v == 0 {
        assert text == Zeros(k) + Decimal(0) + Decimal(d);
        ZerosStep(k);
        k := k + 1;
      } else {
        assert text == Zeros(k) + (Decimal(v) + Decimal(d));
      }
    }
  }
}
