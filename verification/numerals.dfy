/** Decimal numerals of unsigned integers, as they are printed and parsed. */
module Numerals {
  import opened Wrappers

  predicate IsDigit(c: char) {
    '0' <= c <= '9'
  }

  predicate AllDigits(s: string) {
    forall i | 0 <= i < |s| :: IsDigit(s[i])
  }

  function Digit(d: nat): (c: char)
    requires d < 10
    ensures IsDigit(c)
  {
    ('0' as int + d) as char
  }

  /** A number in decimal digits. */
  function Decimal(n: nat): string {
    if n < 10 then [Digit(n)] else Decimal(n / 10) + [Digit(n % 10)]
  }

  /** The number a string of digits denotes. */
  function Number(s: string): nat
    requires AllDigits(s)
  {
    if s == [] then 0 else Number(s[..|s| - 1]) * 10 + (s[|s| - 1] as int - '0' as int)
  }

  function Zeros(z: nat): string {
    seq(z, _ => '0')
  }

  lemma {:induction false} DecimalIsNumeral(n: nat)
    ensures AllDigits(Decimal(n)) && Decimal(n) != [] && Number(Decimal(n)) == n
  {
    if n >= 10 {
      DecimalIsNumeral(n / 10);
      var front := Decimal(n / 10);
      assert Decimal(n) == front + [Digit(n % 10)];
      assert Decimal(n)[..|front|] == front;
    }
  }

  lemma {:induction false} NumberOfZeros(z: nat)
    ensures AllDigits(Zeros(z)) && Number(Zeros(z)) == 0
  {
    if z > 0 {
      NumberOfZeros(z - 1);
      assert Zeros(z)[..z - 1] == Zeros(z - 1);
    }
  }

  lemma {:induction false} LeadingZeros(z: nat, s: string)
    requires AllDigits(s)
    ensures AllDigits(Zeros(z) + s) && Number(Zeros(z) + s) == Number(s)
    decreases |s|
  {
    if s == [] {
      NumberOfZeros(z);
      assert Zeros(z) + s == Zeros(z);
    } else {
      LeadingZeros(z, s[..|s| - 1]);
      assert (Zeros(z) + s)[..z + |s| - 1] == Zeros(z) + s[..|s| - 1];
    }
  }

  lemma DecimalNext(m: nat, d: nat)
    requires d < 10
    ensures Decimal(m * 10 + d) == if m > 0 then Decimal(m) + [Digit(d)] else [Digit(d)]
  {
    assert (m * 10 + d) / 10 == m && (m * 10 + d) % 10 == d;
  }

  lemma LastDigit(s: string) returns (front: string, d: nat)
    requires AllDigits(s) && s != []
    ensures d < 10 && s == front + [Digit(d)] && AllDigits(front) && Number(s) == Number(front) * 10 + d
    ensures |front| == |s| - 1 && (front == [] ==> Number(front) == 0)
  {
    front := s[..|s| - 1];
    d := s[|s| - 1] as int - '0' as int;
    assert Digit(d) == s[|s| - 1];
  }

  lemma ZerosNext(z: nat)
    ensures Zeros(z) + ['0'] == Zeros(z + 1) && Digit(0) == '0' && Decimal(0) == ['0']
  {
  }

  /** Digits are the numeral of the number they denote, with zeros before it. */
  lemma {:induction false} DigitsAreNumeral(s: string) returns (z: nat)
    requires AllDigits(s) && s != []
    ensures s == Zeros(z) + Decimal(Number(s))
    decreases |s|
  {
    hide Decimal, Number, Zeros, AllDigits, Digit;
    var front, d := LastDigit(s);
    DecimalNext(Number(front), d);
    if front == [] {
      z := 0;
      assert Zeros(0) == [] by { NoZeros(); }
    } else {
      var y := DigitsAreNumeral(front);
      if Number(front) > 0 {
        z := y;
        assert s == Zeros(y) + (Decimal(Number(front)) + [Digit(d)]);
      } else {
        z := y + 1;
        ZerosNext(y);
        assert s == Zeros(z) + [Digit(d)];
      }
    }
  }

  lemma NoZeros()
    ensures Zeros(0) == []
  {
  }

  /** An unsigned 64-bit number parsed: an optional plus sign, then at least one digit, no overflow. */
  function ParseU64(s: string): Option<U64> {
    var digits := if s != [] && s[0] == '+' then s[1..] else s;
    if digits != [] && AllDigits(digits) && Number(digits) < 0x1_0000_0000_0000_0000 then Some(Number(digits)) else None
  }

  ghost predicate Numeral(s: string, plus: bool, z: nat, n: U64) {
    s == (if plus then "+" else "") + (Zeros(z) + Decimal(n))
  }

  lemma NumeralOf(s: string, n: U64)
    requires ParseU64(s) == Some(n)
    ensures exists plus, z :: Numeral(s, plus, z, n)
  {
    hide Decimal, Number, AllDigits, Zeros;
    var plus := s[0] == '+';
    var digits := if plus then s[1..] else s;
    var z := DigitsAreNumeral(digits);
    assert s == (if plus then "+" else "") + digits;
    assert Numeral(s, plus, z, n);
  }

  lemma NumeralParses(s: string, plus: bool, z: nat, n: U64)
    requires Numeral(s, plus, z, n)
    ensures ParseU64(s) == Some(n)
  {
    hide Decimal, Number, Zeros;
    DecimalIsNumeral(n);
    LeadingZeros(z, Decimal(n));
    var digits := Zeros(z) + Decimal(n);
    if plus {
      assert s == "+" + digits;
      assert s[1..] == digits;
    } else {
      assert s == digits;
      assert IsDigit(s[0]);
    }
  }

  /** Nothing but digits and a plus sign is in a numeral. */
  lemma NoNumeral(s: string, c: char)
    requires c in s && !IsDigit(c) && c != '+'
    ensures ParseU64(s) == None
  {
    hide Number;
    var i :| 0 <= i < |s| && s[i] == c;
    var digits := if s[0] == '+' then s[1..] else s;
    if s[0] == '+' {
      assert digits[i - 1] == c;
    }
  }

  /** An unsigned 32-bit number parsed. */
  function ParseU32(s: string): Option<U32> {
    var n := ParseU64(s);
    if n.Some? && n.value < 0x1_0000_0000 then Some(n.value) else None
  }

  /** A printed number is parsed back exactly when it fits. */
  lemma DecimalParses(n: nat)
    ensures ParseU64(Decimal(n)) == if n <= 18446744073709551615 then Some(n) else None
    ensures ParseU32(Decimal(n)) == if n <= 4294967295 then Some(n) else None
  {
    hide Decimal, Number;
    DecimalIsNumeral(n);
  }

  /** Every digit, in a number. */
  lemma DecimalText()
    ensures Decimal(1234567890) == "1234567890"
  {
    assert Decimal(1) == "1";
    assert Decimal(12) == "12";
    assert Decimal(123) == "123";
    assert Decimal(1234) == "1234";
    assert Decimal(12345) == "12345";
    assert Decimal(123456) == "123456";
    assert Decimal(1234567) == "1234567";
    assert Decimal(12345678) == "12345678";
    assert Decimal(123456789) == "123456789";
  }
}
