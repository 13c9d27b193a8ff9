// Decimal text of integers as Go's strconv writes and reads it.
module Decimal {
  import opened Wrappers

  const MAX_INT: int := 0x7fff_ffff_ffff_ffff
  const MIN_INT: int := -MAX_INT - 1

  /** A Go int on the 64-bit platforms the emulator is built for. */
  type Int = n: int | MIN_INT <= n <= MAX_INT

  predicate IsDigit(c: char) { '0' <= c <= '9' }

  function DigitChar(d: nat): (c: char)
    requires d < 10
    ensures IsDigit(c) && c as int - '0' as int == d
  {
    ('0' as int + d) as char
  }

  /** The digits of a number. */
  function Numeral(n: nat): (s: string)
    ensures |s| >= 1
    ensures forall i :: 0 <= i < |s| ==> IsDigit(s[i])
  {
    if n < 10 then [DigitChar(n)] else Numeral(n / 10) + [DigitChar(n % 10)]
  }

  /** The number a run of digits denotes, or None when a character is not a digit. */
  function Digits(s: string): Option<nat>
    requires |s| >= 1
  {
    var last := s[|s| - 1];
    if !IsDigit(last) then None
    else if |s| == 1 then Some(last as int - '0' as int)
    else match Digits(s[..|s| - 1])
         case None => None
         case Some(n) => Some(n * 10 + (last as int - '0' as int))
  }

  /** strconv.Itoa. */
  function Itoa(n: int): string {
    if n < 0 then "-" + Numeral(0 - n) else Numeral(n)
  }

  lemma {:induction false} DigitsOfNumeral(n: nat)
    ensures Digits(Numeral(n)) == Some(n)
  {
    if n >= 10 {
      DigitsOfNumeral(n / 10);
      var s := Numeral(n);
      assert s[..|s| - 1] == Numeral(n / 10);
    }
  }

  lemma {:induction false} NoLeadingZero(n: nat)
    ensures Numeral(n)[0] == '0' <==> n == 0
  {
    if n >= 10 {
      NoLeadingZero(n / 10);
    }
  }

  /** A run of digits without a leading zero is the numeral of its value. */
  lemma {:induction false} NumeralOfDigits(s: string)
    requires |s| >= 1 && (s[0] == '0' ==> |s| == 1) && Digits(s).Some?
    ensures Numeral(Digits(s).value) == s
  {
    var last := s[|s| - 1];
    if |s| > 1 {
      var front := s[..|s| - 1];
      NumeralOfDigits(front);
      NoLeadingZero(Digits(front).value);
      assert s == front + [last];
    }
    assert DigitChar(last as int - '0' as int) as int == last as int;
    SameCode(DigitChar(last as int - '0' as int), last);
  }

  lemma SameCode(c: char, d: char)
    ensures c as int == d as int <==> c == d
  {
    assert (c as int) as char == c;
    assert (d as int) as char == d;
  }

  /** The value strconv.Atoi returns, whatever its error: 0 for a syntax error and the
      nearest representable int for a number out of range. */
  function Atoi(s: string): Int {
    var signed := |s| > 0 && (s[0] == '-' || s[0] == '+');
    var digits := if signed then s[1..] else s;
    if digits == "" then 0
    else match Digits(digits)
         case None => 0
         case Some(n) =>
           var value: int := if signed && s[0] == '-' then 0 - n else n;
           if value < MIN_INT then MIN_INT else if value > MAX_INT then MAX_INT else value
  }

  lemma AtoiOfItoa(n: Int)
    ensures Atoi(Itoa(n)) == n
  {
    if n < 0 {
      var size: nat := 0 - n;
      DigitsOfNumeral(size);
      assert Itoa(n)[1..] == Numeral(size);
    } else {
      DigitsOfNumeral(n);
      assert IsDigit(Numeral(n)[0]);
    }
  }

  /** Only an optional sign and digits read as anything but 0. */
  lemma AtoiOfOther(s: string, i: nat)
    requires i < |s| && !IsDigit(s[i]) && (i == 0 ==> s[0] != '-' && s[0] != '+')
    ensures Atoi(s) == 0
  {
    var signed := s[0] == '-' || s[0] == '+';
    NotDigits(if signed then s[1..] else s, if signed then i - 1 else i);
  }

  lemma {:induction false} NotDigits(s: string, i: nat)
    requires i < |s| && !IsDigit(s[i])
    ensures Digits(s).None?
  {
    if i < |s| - 1 {
      NotDigits(s[..|s| - 1], i);
    }
  }

  lemma ItoaIsAscii(n: int)
    ensures |Itoa(n)| >= 1
    ensures forall i :: 0 <= i < |Itoa(n)| ==> Itoa(n)[i] < 128 as char
  {
  }
}
