// What the printer and the parsers of lib/libc promise each other.
module NumberRoundTrips {
  import DigitLoop
  import opened NumberParser
  import opened NumberPrinter
  import opened Numerals
  import opened Options
  import opened Words

  // Digits followed by something else parse as those digits.
  lemma {:induction false} DigitPrefixOf(s: string, t: string, base: int)
    requires forall i :: 0 <= i < |s| ==> CorrectDigit(s[i], base)
    requires t == [] || !CorrectDigit(t[0], base)
    ensures DigitRun(s + t, base) == |s| && DigitPrefix(s + t, base) == s && (s + t)[DigitRun(s + t, base)..] == t
  {
    if s == [] {
      assert s + t == t;
    } else {
      assert (s + t)[1..] == s[1..] + t;
      DigitPrefixOf(s[1..], t, base);
    }
  }

  // A non-empty string of digits of the base, worth n.
  predicate Text(s: string, base: nat, n: nat) {
    s != [] && Value(s, base) == n && forall i :: 0 <= i < |s| ==> CorrectDigit(s[i], base)
  }

  predicate Dots(s: string) {
    forall i :: 0 <= i < |s| ==> s[i] == '.'
  }

  // The zeros and digits itoa prints, without sign and dots.
  function Number(n: nat, base: nat, fieldwidth: int): string
    requires 2 <= base <= 16
  {
    Fill('0', fieldwidth - NumDigits(n, base)) + Digits(n, base)
  }

  lemma DigitsAreCorrect(n: nat, base: nat)
    requires base == 10 || base == 16
    ensures forall i :: 0 <= i < |Digits(n, base)| ==> CorrectDigit(Digits(n, base)[i], base)
  {
  }

  lemma NumberIsText(n: nat, base: nat, fieldwidth: int)
    requires base == 10 || base == 16
    ensures Text(Number(n, base, fieldwidth), base, n)
  {
    var zeros, digits := Fill('0', fieldwidth - NumDigits(n, base)), Digits(n, base);
    DigitsDenote(n, base);
    DigitsAreCorrect(n, base);
    ZerosBefore(zeros, digits, base, n);
  }

  lemma ZerosBefore(zeros: string, digits: string, base: nat, n: nat)
    requires base >= 2 && Text(digits, base, n)
    requires forall i :: 0 <= i < |zeros| ==> zeros[i] == '0'
    ensures Text(zeros + digits, base, n)
  {
    assert zeros == Zeros(|zeros|);
    ValueOfZeros(|zeros|, digits, base);
    assert CorrectDigit('0', base);
  }

  // What itoa prints after the sign: a digit text worth the number, and dots.
  lemma PaddedParts(n: u32, base: nat, fieldwidth: int) returns (s: string, dots: string)
    requires base == 10 || base == 16
    ensures Text(s, base, n) && Dots(dots) && Padded(n, base, fieldwidth) == s + dots
    ensures base == 16 ==> ((s[0] == '0' && |s| == 1) <==> (n == 0 && fieldwidth <= 1))
  {
    s, dots := Number(n, base, fieldwidth), Fill('.', -fieldwidth - NumDigits(n, base));
    NumberIsText(n, base, fieldwidth);
    DigitLoop.DivisorFitsTen(n);
    DigitLoop.DivisorFitsSixteen(n);
    if base == 16 {
      LoneZero(n, fieldwidth);
    }
  }

  // ---- Decimal ----

  function WithSign(negative: bool, n: int): int {
    if negative then -n else n
  }

  lemma AtoiOfText(s: string, dots: string, n: nat, negative: bool)
    requires Text(s, 10, n) && Dots(dots)
    ensures AtoiValue((if negative then "-" else "") + (s + dots)) == ToI32(WithSign(negative, n))
  {
    DigitPrefixOf(s, dots, 10);
    var text := (if negative then "-" else "") + (s + dots);
    if negative {
      assert text[1..] == s + dots;
    } else {
      assert text == s + dots;
    }
    assert AfterSign(text) == s + dots;
  }

  lemma MagnitudeWraps(value: i32, unsignedValue: bool)
    ensures ToI32(WithSign(Negative(value, 10, unsignedValue), Magnitude(value, 10, unsignedValue))) == value
  {
  }

  // atoi of what itoa prints in base 10, signed or unsigned, at any width, is
  // the value itself, the smallest one included.
  lemma DecimalRoundTrip(value: i32, unsignedValue: bool, fieldwidth: int)
    ensures AtoiValue(Rendered(value, 10, unsignedValue, fieldwidth)) == value
  {
    var s, dots := PaddedParts(Magnitude(value, 10, unsignedValue), 10, fieldwidth);
    AtoiOfText(s, dots, Magnitude(value, 10, unsignedValue), Negative(value, 10, unsignedValue));
    MagnitudeWraps(value, unsignedValue);
  }

  // strtoull in base 10 reads the same text back in 64 bits, sign and all: it
  // tells a negative number from the bit pattern an unsigned conversion prints.
  lemma DecimalRoundTripWide(value: i32, unsignedValue: bool, fieldwidth: int)
    ensures StrtoullValue(Rendered(value, 10, unsignedValue, fieldwidth), 10).0 ==
            if unsignedValue then ToU32(value) else ToU64(value)
  {
    var s, dots, n, negative := RenderedParts(value, unsignedValue, fieldwidth);
    StrtoullOfText(s, dots, n, negative);
  }

  lemma RenderedParts(value: i32, unsignedValue: bool, fieldwidth: int)
    returns (s: string, dots: string, n: u32, negative: bool)
    ensures Text(s, 10, n) && Dots(dots)
    ensures Rendered(value, 10, unsignedValue, fieldwidth) == (if negative then "-" else "") + (s + dots)
    ensures ToU64(WithSign(negative, n)) == if unsignedValue then ToU32(value) else ToU64(value)
  {
    n, negative := Magnitude(value, 10, unsignedValue), Negative(value, 10, unsignedValue);
    s, dots := PaddedParts(n, 10, fieldwidth);
  }

  lemma StrtoullOfText(s: string, dots: string, n: u32, negative: bool)
    requires Text(s, 10, n) && Dots(dots)
    ensures StrtoullValue((if negative then "-" else "") + (s + dots), 10).0 == ToU64(WithSign(negative, n))
  {
    DigitPrefixOf(s, dots, 10);
    var text := (if negative then "-" else "") + (s + dots);
    if negative {
      assert text[1..] == s + dots;
    } else {
      assert text == s + dots;
    }
    assert AfterSpaces(text) == text && AfterSign(text) == s + dots;
  }

  // ---- atoi against strtoull ----

  lemma FitsExactlyWhenZero(v: int)
    ensures ToI32(v) == 0 <==> v % 0x1_0000_0000 == 0
    ensures ToI32(v) == 0 <==> ToI32(-v) == 0
  {
  }

  // Both come to the signed value of the digits they read.
  lemma StrtoullDecimal(s: string)
    ensures var t := AfterSpaces(s);
            ToI32(StrtoullValue(s, 10).0) == ToI32(Signed(t, Value(DigitPrefix(AfterSign(t), 10), 10)))
  {
    var t := AfterSpaces(s);
    var v := Signed(t, Value(DigitPrefix(AfterSign(t), 10), 10));
    Wrapped64(v);
    Same64IsSame32(ToU64(v), v);
    Same32Equal(ToU64(v), v);
  }

  // Right to left in 32 bits and left to right in 64 agree on every string that
  // does not start with a space.  On the others atoi gives 0, which is right for
  // the numbers that are 0 mod 2^32.
  lemma ParsersAgreeExactlyWhen(s: string)
    ensures AtoiValue(s) == ToI32(StrtoullValue(s, 10).0)
            <==> Head(s) != ' ' || Value(DigitPrefix(AfterSign(AfterSpaces(s)), 10), 10) % 0x1_0000_0000 == 0
  {
    StrtoullDecimal(s);
    if Head(s) == ' ' {
      assert DigitPrefix(s, 10) == [];
      assert Value([], 10) == 0;
      FitsExactlyWhenZero(Value(DigitPrefix(AfterSign(AfterSpaces(s)), 10), 10));
    }
  }

  // ---- Hexadecimal ----

  // A first zero can go.
  lemma TextWithoutZero(s: string, n: nat)
    requires Text(s, 16, n) && s[0] == '0' && |s| > 1
    ensures Text(s[1..], 16, n)
  {
    assert s == ['0'] + s[1..];
    ValueOfFirst('0', s[1..], 16);
  }

  lemma HexPrefixOfText(s: string, dots: string, n: nat)
    requires Text(s, 16, n) && Dots(dots)
    ensures IsXDigit(Head(s + dots))
    ensures AfterHexPrefix(s + dots) ==
            if s[0] != '0' then Some(s + dots) else if |s| > 1 then Some(s[1..] + dots) else None
  {
    var text := s + dots;
    assert CorrectDigit(s[0], 16) && text[0] == s[0];
    if |s| > 1 {
      assert CorrectDigit(s[1], 16) && text[1] == s[1];
      assert text[1..] == s[1..] + dots;
    } else {
      assert text[1..] == dots;
    }
  }

  // Only the bare numeral "0" makes hex_process give up.
  lemma LoneZero(n: nat, fieldwidth: int)
    ensures var s := Number(n, 16, fieldwidth); (s[0] == '0' && |s| == 1) <==> (n == 0 && fieldwidth <= 1)
  {
    DigitsDenote(n, 16);
    var s, digits := Number(n, 16, fieldwidth), Digits(n, 16);
    if n == 0 {
      assert digits == ['0'];
    } else if |s| == 1 {
      assert s == digits;
    }
  }

  lemma HexValue(text: string, n: u32)
    requires IsXDigit(Head(text))
    ensures AfterHexPrefix(text) == None ==> StrtoullValue(text, 16) == (0, None)
    ensures AfterHexPrefix(text).Some? && Value(DigitPrefix(AfterHexPrefix(text).value, 16), 16) == n ==>
              StrtoullValue(text, 16)
              == (n, Some(AfterHexPrefix(text).value[DigitRun(AfterHexPrefix(text).value, 16)..]))
  {
  }

  lemma HexMagnitude(value: i32, fieldwidth: int)
    ensures Magnitude(value, 16, true) == ToU32(value)
    ensures ToU32(value) == 0 <==> value == 0
    ensures Rendered(value, 16, true, fieldwidth) == Padded(ToU32(value), 16, fieldwidth)
  {
  }

  // %x read back in base 16 is the bit pattern of the value; *endptr is set
  // except for a lone 0, where the call leaves early, and left at the padding.
  lemma HexRoundTrip(value: i32, fieldwidth: int)
    ensures var r := StrtoullValue(Rendered(value, 16, true, fieldwidth), 16);
            && r.0 == ToU32(value)
            && (r.1.Some? <==> !(value == 0 && fieldwidth <= 1))
            && (r.1.Some? ==> Dots(r.1.value))
  {
    HexMagnitude(value, fieldwidth);
    var s, dots := PaddedParts(ToU32(value), 16, fieldwidth);
    HexTextValue(s, dots, ToU32(value));
  }

  lemma HexTextValue(s: string, dots: string, n: u32)
    requires Text(s, 16, n) && Dots(dots)
    ensures s[0] == '0' && |s| == 1 ==> n == 0 && StrtoullValue(s + dots, 16) == (0, None)
    ensures !(s[0] == '0' && |s| == 1) ==> StrtoullValue(s + dots, 16) == (n, Some(dots))
  {
    HexPrefixOfText(s, dots, n);
    HexValue(s + dots, n);
    if s[0] != '0' {
      DigitPrefixOf(s, dots, 16);
    } else if |s| > 1 {
      TextWithoutZero(s, n);
      DigitPrefixOf(s[1..], dots, 16);
    } else {
      assert s[..0] == [] && Value(s[..0], 16) == 0;
    }
  }

  // So is %p, whose 0x hex_process takes off.
  lemma PointerRoundTrip(value: i32, fieldwidth: int)
    ensures var r := StrtoullValue(Formatted('p', value, fieldwidth), 16);
            r.0 == ToU32(value) && r.1.Some? && Dots(r.1.value)
  {
    HexMagnitude(value, fieldwidth);
    var s, dots := PaddedParts(ToU32(value), 16, fieldwidth);
    PrefixedText(s, dots, ToU32(value));
  }

  lemma PrefixedText(s: string, dots: string, n: u32)
    requires Text(s, 16, n) && Dots(dots)
    ensures StrtoullValue("0x" + (s + dots), 16) == (n, Some(dots))
  {
    HexPrefixOfText(s, dots, n);
    DigitPrefixOf(s, dots, 16);
    PrefixedHex(s + dots);
    HexValue("0x" + (s + dots), n);
  }

  lemma PrefixedHex(t: string)
    requires IsXDigit(Head(t))
    ensures AfterHexPrefix("0x" + t) == Some(t) && IsXDigit(Head("0x" + t))
  {
  }

  // ---- Base 0 ----

  // With base 0 the %p form is read back too, but *endptr is left alone when
  // the hex digits are a lone 0: hex_process runs on what follows the 0x.
  lemma PointerRoundTripBaseZero(value: i32, fieldwidth: int)
    ensures var r := StrtoullValue(Formatted('p', value, fieldwidth), 0);
            r.0 == ToU32(value) && (r.1.Some? <==> !(value == 0 && fieldwidth <= 1))
  {
    HexMagnitude(value, fieldwidth);
    var s, dots := PaddedParts(ToU32(value), 16, fieldwidth);
    HexPrefixOfText(s, dots, ToU32(value));
    HexTextValue(s, dots, ToU32(value));
    BaseZeroAfterPrefix(s + dots);
  }

  lemma BaseZeroAfterPrefix(t: string)
    requires IsXDigit(Head(t))
    ensures StrtoullValue("0x" + t, 0) == StrtoullValue(t, 16)
  {
  }
}
