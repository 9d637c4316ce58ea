// Digit strings and the numbers they denote, for the printer and the parsers of
// lib/libc.
module Numerals {

  type i32 = x: int | -0x8000_0000 <= x < 0x8000_0000

  // Storing an integer in a 32-bit `int`.
  function ToI32(x: int): i32 {
    (x + 0x8000_0000) % 0x1_0000_0000 - 0x8000_0000
  }

  function Pow(base: nat, n: nat): nat {
    if n == 0 then 1 else base * Pow(base, n - 1)
  }

  // ---- Characters (include/ganoid/ctype.h) ----

  const NUL: char := '\0'

  predicate IsDigit(c: char) {
    '0' <= c <= '9'
  }

  predicate IsHexChar(c: char) {
    'A' <= c <= 'F'
  }

  predicate IsXDigit(c: char) {
    IsDigit(c) || IsHexChar(c)
  }

  // What a digit character is worth; 16 for any other character.
  function DigitValue(c: char): nat {
    if IsDigit(c) then c as int - '0' as int
    else if IsHexChar(c) then c as int - 'A' as int + 10
    else 16
  }

  function DigitChar(d: nat): (c: char)
    requires d < 16
    ensures IsXDigit(c) && DigitValue(c) == d
  {
    "0123456789ABCDEF"[d]
  }

  // All characters are digits of the base.
  predicate Numeral(s: string, base: nat) {
    forall i :: 0 <= i < |s| ==> DigitValue(s[i]) < base
  }

  // ---- The number a digit string denotes ----

  function Value(s: string, base: nat): nat {
    if s == [] then 0 else Value(s[..|s| - 1], base) * base + DigitValue(s[|s| - 1])
  }

  function Zeros(n: nat): (s: string)
    ensures |s| == n && forall i :: 0 <= i < n ==> s[i] == '0'
  {
    seq(n, _ => '0')
  }

  lemma MulAdd(a: int, b: int, c: int)
    ensures (a + b) * c == a * c + b * c
  {
  }

  lemma MulAssoc(a: int, b: int, c: int)
    ensures a * (b * c) == (a * b) * c
  {
  }

  // The most significant digit weighs base to the number of digits after it.
  lemma {:induction false} ValueOfFirst(c: char, s: string, base: nat)
    ensures Value([c] + s, base) == DigitValue(c) * Pow(base, |s|) + Value(s, base)
  {
    var t := [c] + s;
    if s == [] {
      assert t[..0] == [] && Value(t[..0], base) == 0;
    } else {
      var front := s[..|s| - 1];
      assert t[..|t| - 1] == [c] + front;
      ValueOfFirst(c, front, base);
      var d, p, v := DigitValue(c), Pow(base, |front|), Value(front, base);
      calc {
        Value(t, base);
        (d * p + v) * base + DigitValue(s[|s| - 1]);
        { MulAdd(d * p, v, base); }
        d * p * base + v * base + DigitValue(s[|s| - 1]);
        { MulAssoc(d, p, base); assert p * base == Pow(base, |s|); }
        d * Pow(base, |s|) + Value(s, base);
      }
    }
  }

  lemma {:induction false} ValueOfZeros(n: nat, s: string, base: nat)
    ensures Value(Zeros(n) + s, base) == Value(s, base)
  {
    if n == 0 {
      assert Zeros(0) + s == s;
    } else {
      assert Zeros(n) + s == ['0'] + (Zeros(n - 1) + s);
      ValueOfFirst('0', Zeros(n - 1) + s, base);
      ValueOfZeros(n - 1, s, base);
    }
  }

  lemma DigitInjective(c: char, d: char)
    requires DigitValue(c) == DigitValue(d) < 16
    ensures c == d
  {
  }

  lemma NumeralFront(s: string, base: nat)
    requires s != [] && Numeral(s, base)
    ensures Numeral(s[..|s| - 1], base) && DigitValue(s[|s| - 1]) < base
    ensures s == s[..|s| - 1] + [s[|s| - 1]]
  {
  }

  // Numerals of one length are told apart by their values.
  lemma {:induction false} ValueInjective(s: string, t: string, base: nat)
    requires base <= 16 && |s| == |t| && Numeral(s, base) && Numeral(t, base)
    requires Value(s, base) == Value(t, base)
    ensures s == t
  {
    if s != [] {
      NumeralFront(s, base);
      NumeralFront(t, base);
      var n := |s| - 1;
      QuotientUnique(Value(s[..n], base), DigitValue(s[n]), Value(t[..n], base), DigitValue(t[n]), base);
      DigitInjective(s[n], t[n]);
      ValueInjective(s[..n], t[..n], base);
    }
  }

  lemma MulMonotone(a: int, b: int, c: int)
    requires a <= b && c >= 0
    ensures a * c <= b * c
  {
  }

  lemma QuotientLess(p: int, r: int, q: int, s: int, base: int)
    requires 0 <= r < base && 0 <= s && p < q
    ensures p * base + r < q * base + s
  {
    MulMonotone(p + 1, q, base);
    MulAdd(p, 1, base);
  }

  lemma QuotientUnique(p: int, r: int, q: int, s: int, base: int)
    requires 0 <= r < base && 0 <= s < base && p * base + r == q * base + s
    ensures p == q && r == s
  {
    if p < q {
      QuotientLess(p, r, q, s, base);
    } else if q < p {
      QuotientLess(q, s, p, r, base);
    }
  }

  // ---- The canonical numeral of a number ----

  function NumDigits(n: nat, base: nat): (r: nat)
    requires base >= 2
    ensures r >= 1
    decreases n
  {
    if n < base then 1 else DivShrinks(n, base); 1 + NumDigits(n / base, base)
  }

  function Digits(n: nat, base: nat): string
    requires 2 <= base <= 16
    decreases n
  {
    if n < base then [DigitChar(n)]
    else
      DivShrinks(n, base);
      Digits(n / base, base) + [DigitChar(n % base)]
  }

  lemma DivShrinks(n: nat, base: nat)
    requires base >= 2 && n >= base
    ensures 1 <= n / base < n
    ensures n == n / base * base + n % base && 0 <= n % base < base
  {
  }

  lemma {:induction false} DigitsDenote(n: nat, base: nat)
    requires 2 <= base <= 16
    ensures Value(Digits(n, base), base) == n
    ensures |Digits(n, base)| == NumDigits(n, base)
    ensures Numeral(Digits(n, base), base)
    ensures n > 0 ==> Digits(n, base)[0] != '0'
    decreases n
  {
    var s := Digits(n, base);
    if n < base {
      assert s[..0] == [] && Value(s[..0], base) == 0;
      assert n > 0 ==> DigitValue(s[0]) != 0;
    } else {
      DivShrinks(n, base);
      DigitsDenote(n / base, base);
      assert s[..|s| - 1] == Digits(n / base, base);
    }
  }

  // n has exactly the digits that base powers say.
  lemma {:induction false} NumDigitsBounds(n: nat, base: nat)
    requires base >= 2
    ensures n < Pow(base, NumDigits(n, base))
    ensures n > 0 ==> Pow(base, NumDigits(n, base) - 1) <= n
    decreases n
  {
    if n >= base {
      DivShrinks(n, base);
      var q, p := n / base, NumDigits(n / base, base);
      NumDigitsBounds(q, base);
      MulMonotone(q + 1, Pow(base, p), base);
      MulAdd(q, 1, base);
      MulMonotone(Pow(base, p - 1), q, base);
      assert Pow(base, p) == Pow(base, p - 1) * base && Pow(base, p + 1) == Pow(base, p) * base;
    } else {
      assert Pow(base, 1) == base * Pow(base, 0) == base;
    }
  }

  lemma {:induction false} PowPositive(base: nat, n: nat)
    requires base >= 1
    ensures Pow(base, n) >= 1
  {
    if n > 0 {
      PowPositive(base, n - 1);
      MulMonotone(1, base, Pow(base, n - 1));
    }
  }

  lemma {:induction false} PowMonotone(base: nat, m: nat, n: nat)
    requires base >= 1 && m <= n
    ensures Pow(base, m) <= Pow(base, n)
    decreases n
  {
    if m < n {
      PowMonotone(base, m, n - 1);
      PowPositive(base, n - 1);
      MulMonotone(1, base, Pow(base, n - 1));
    }
  }

  // A digit string of the right length and value is the canonical numeral.
  lemma CanonicalNumeral(s: string, n: nat, base: nat)
    requires 2 <= base <= 16 && Numeral(s, base)
    requires |s| == NumDigits(n, base) && Value(s, base) == n
    ensures s == Digits(n, base)
  {
    DigitsDenote(n, base);
    ValueInjective(s, Digits(n, base), base);
  }
}
