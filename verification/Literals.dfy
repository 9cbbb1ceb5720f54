/** Number literals: the word the code generator keeps of a text, and the number the text stands for. */
module Literals {
  import opened Decoded
  import opened Numerals

  /** A sign in front of digits. */
  predicate Signed(text: string, sign: char)
  {
    text != "" && text[0] == sign && AllDigits(text[1..])
  }

  /** The source's parse into a u64: digits, perhaps behind a plus, that fit. */
  function ParseU64(text: string): Option<nat>
  {
    var digits := if Signed(text, '+') then text[1..] else text;
    if AllDigits(digits) && DecimalValue(digits) < 0x1_0000_0000_0000_0000 then Some(DecimalValue(digits)) else None
  }

  /** A literal becomes a 32-bit word; one that is no u64 becomes zero. */
  function Word(text: string): nat
  {
    var v := ParseU64(text);
    if v.Some? then v.value % 0x1_0000_0000 else 0
  }

  /** A word read as a signed integer, as every constant and literal is. */
  function Int32(word: nat): int
  {
    if word < 0x8000_0000 then word else word - 0x1_0000_0000
  }

  /** The number a decimal literal stands for. */
  function Written(text: string): Option<int>
  {
    if AllDigits(text) then Some(DecimalValue(text))
    else if Signed(text, '+') then Some(DecimalValue(text[1..]))
    else if Signed(text, '-') then Some(0 - DecimalValue(text[1..]))
    else None
  }

  /** The word stands for the number written exactly when that is no negative number and fits in 31 bits. */
  lemma WordExactly(text: string)
    requires Written(text).Some?
    ensures Int32(Word(text)) == Written(text).value <==> 0 <= Written(text).value < 0x8000_0000
  {
    hide DecimalValue;
    assert text[0] in text;
  }

  lemma DigitsKept(text: string, n: nat)
    requires AllDigits(text) && DecimalValue(text) == n
    ensures var word := if n < 0x1_0000_0000_0000_0000 then n % 0x1_0000_0000 else 0;
            && Written(text) == Some(n) && Word(text) == word
            && Written("+" + text) == Some(n) && Word("+" + text) == word
            && Written("-" + text) == Some(0 - n) && Word("-" + text) == 0
  {
    hide DecimalValue;
    assert text[0] in text;
    assert ("+" + text)[1..] == text && ("-" + text)[1..] == text;
    assert ("+" + text)[0] in "+" + text && ("-" + text)[0] in "-" + text;
  }

  /**
    The numeral of a number, with or without zeros in front of it, is kept as that number modulo 2^32 if it fits in
    64 bits; a plus changes nothing, and behind a minus all is lost.
   */
  lemma NumeralsKept(k: nat, n: nat)
    ensures var text := Zeros(k) + Decimal(n);
            var word := if n < 0x1_0000_0000_0000_0000 then n % 0x1_0000_0000 else 0;
            && Written(text) == Some(n) && Word(text) == word
            && Written("+" + text) == Some(n) && Word("+" + text) == word
            && Written("-" + text) == Some(0 - n) && Word("-" + text) == 0
    ensures n < 0x1_0000_0000 ==> Word(Decimal(n)) == n
  {
    hide DecimalValue, Decimal, Zeros, Word, Written, AllDigits;
    NumeralExactly(Zeros(k) + Decimal(n), n);
    DigitsKept(Zeros(k) + Decimal(n), n);
    ReadWritten(n);
    DigitsKept(Decimal(n), n);
  }

  /** Forty-two below zero, and two hundred and fifty-five to base sixteen, become zero. */
  lemma WordsLost()
    ensures Written("-42") == Some(-42) && Word("-42") == 0
    ensures Written("0xFF") == None && Word("0xFF") == 0
  {
    assert "-42"[0] in "-42" && "-42"[1..] == "42";
    assert "42"[..1] == "4" && "4"[..0] == "";
    assert DecimalValue("4") == 4 && DecimalValue("42") == 42;
    assert AllDigits("42");
    assert "0xFF"[1] in "0xFF" && "0xFF"[0] == '0';
  }
}
