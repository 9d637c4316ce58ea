// What itoa and the integer arms of realize_string print, said without naming
// how: the text is the one numeral of the integer, of the width asked for.
module PrintedNumbers {
  import opened DigitLoop
  import opened NumberPrinter
  import opened Numerals
  import opened Words

  // How many digits of the base a string starts with.
  function NumeralRun(s: string, base: nat): (n: nat)
    ensures n <= |s| && Numeral(s[..n], base)
    ensures n < |s| ==> DigitValue(s[n]) >= base
  {
    if s == [] || DigitValue(s[0]) >= base then 0 else 1 + NumeralRun(s[1..], base)
  }

  predicate HasSign(text: string) {
    text != [] && text[0] == '-'
  }

  function Unsigned(text: string): string {
    if HasSign(text) then text[1..] else text
  }

  // The integer at the start of a text, in all its bits.
  function IntegerAt(text: string, base: nat): int {
    var body := Unsigned(text);
    var n: int := Value(body[..NumeralRun(body, base)], base);
    if HasSign(text) then -n else n
  }

  function Larger(a: int, b: int): int {
    if a > b then a else b
  }

  function Abs(v: int): nat {
    if v < 0 then -v else v
  }

  // The digits of n, more of them up to a positive width, and dots behind them up
  // to a negative one.
  ghost predicate BodyOf(body: string, n: nat, base: nat, fieldwidth: int)
    requires 2 <= base <= 16
  {
    var digits := NumeralRun(body, base);
    && Value(body[..digits], base) == n
    && digits == Larger(fieldwidth, NumDigits(n, base))
    && |body| == Larger(-fieldwidth, digits)
    && forall i :: digits <= i < |body| ==> body[i] == '.'
  }

  // The text of v: a sign exactly if v is negative, and digits that make v with it.
  ghost predicate PrintedAs(text: string, v: int, base: nat, fieldwidth: int)
    requires 2 <= base <= 16
  {
    (HasSign(text) <==> v < 0) && BodyOf(Unsigned(text), Abs(v), base, fieldwidth)
  }

  // Read as an integer it is v again.
  lemma PrintedDenotes(text: string, v: int, base: nat, fieldwidth: int)
    requires 2 <= base <= 16 && PrintedAs(text, v, base, fieldwidth)
    ensures IntegerAt(text, base) == v
  {
  }

  // There is only one such text.
  lemma PrintedOnce(s: string, t: string, v: int, base: nat, fieldwidth: int)
    requires 2 <= base <= 16 && PrintedAs(s, v, base, fieldwidth) && PrintedAs(t, v, base, fieldwidth)
    ensures s == t
  {
    var a, b := Unsigned(s), Unsigned(t);
    var n := NumeralRun(a, base);
    ValueInjective(a[..n], b[..n], base);
    assert a == a[..n] + a[n..] && b == b[..n] + b[n..];
    assert HasSign(s) ==> s == ['-'] + a && t == ['-'] + b;
  }

  lemma {:induction false} NumeralRunOf(s: string, t: string, base: nat)
    requires Numeral(s, base) && (t != [] ==> DigitValue(t[0]) >= base)
    ensures NumeralRun(s + t, base) == |s| && (s + t)[..|s|] == s && (s + t)[|s|..] == t
  {
    if s == [] {
      assert s + t == t;
    } else {
      assert (s + t)[1..] == s[1..] + t;
      NumeralRunOf(s[1..], t, base);
    }
  }

  // A numeral and dots.
  lemma NumeralAndDots(front: string, dots: string, n: nat, base: nat, fieldwidth: int)
    requires 2 <= base <= 16 && Numeral(front, base) && front != [] && Value(front, base) == n
    requires |front| == Larger(fieldwidth, NumDigits(n, base)) && |dots| == Larger(-fieldwidth - NumDigits(n, base), 0)
    requires forall i :: 0 <= i < |dots| ==> dots[i] == '.'
    ensures BodyOf(front + dots, n, base, fieldwidth) && !HasSign(front + dots)
  {
    NumeralRunOf(front, dots, base);
    assert (front + dots)[0] == front[0] && DigitValue('-') == 16;
  }

  // Zeros in front of the digits make a numeral of the same number.
  lemma ZerosInFront(n: nat, base: nat, fieldwidth: int) returns (front: string, dots: string)
    requires 2 <= base <= 16 && DivisorFits(n, base)
    ensures Padded(n, base, fieldwidth) == front + dots
    ensures Numeral(front, base) && front != [] && Value(front, base) == n
    ensures |front| == Larger(fieldwidth, NumDigits(n, base)) && |dots| == Larger(-fieldwidth - NumDigits(n, base), 0)
    ensures forall i :: 0 <= i < |dots| ==> dots[i] == '.'
  {
    var zeros := Fill('0', fieldwidth - NumDigits(n, base));
    DigitsDenote(n, base);
    assert zeros == Zeros(|zeros|);
    ValueOfZeros(|zeros|, Digits(n, base), base);
    front, dots := zeros + Digits(n, base), Fill('.', -fieldwidth - NumDigits(n, base));
  }

  lemma PaddedIs(n: nat, base: nat, fieldwidth: int)
    requires 2 <= base <= 16 && DivisorFits(n, base)
    ensures BodyOf(Padded(n, base, fieldwidth), n, base, fieldwidth) && !HasSign(Padded(n, base, fieldwidth))
  {
    var front, dots := ZerosInFront(n, base, fieldwidth);
    NumeralAndDots(front, dots, n, base, fieldwidth);
  }

  // What itoa prints, in every base in which its divisor fits: the value with
  // its sign, or the bit pattern if the conversion is unsigned or the base 2 or 16.
  lemma RenderedIs(value: i32, base: nat, unsignedValue: bool, fieldwidth: int)
    requires 2 <= base <= 16
    ensures var v := if unsignedValue || base == 2 || base == 16 then ToU32(value) else value;
            && (DivisorFits(Abs(v), base) ==>
                  PrintedAs(Rendered(value, base, unsignedValue, fieldwidth), v, base, fieldwidth))
            && (base == 10 || base == 16 ==> DivisorFits(Abs(v), base))
  {
    var v := if unsignedValue || base == 2 || base == 16 then ToU32(value) else value;
    DivisorFitsTen(Abs(v));
    DivisorFitsSixteen(Abs(v));
    assert Magnitude(value, base, unsignedValue) == Abs(v) && Negative(value, base, unsignedValue) == (v < 0);
    if DivisorFits(Abs(v), base) {
      PaddedIs(Abs(v), base, fieldwidth);
      var text, body := Rendered(value, base, unsignedValue, fieldwidth), Padded(Abs(v), base, fieldwidth);
      if v < 0 {
        assert text == "-" + body && text[1..] == body;
      } else {
        assert text == body;
      }
    }
  }

  lemma FormattedParts(value: i32, fieldwidth: int)
    ensures Formatted('d', value, fieldwidth) == Rendered(value, 10, false, fieldwidth)
    ensures Formatted('u', value, fieldwidth) == Rendered(value, 10, true, fieldwidth)
    ensures Formatted('x', value, fieldwidth) == Rendered(value, 16, true, fieldwidth)
    ensures Formatted('p', value, fieldwidth) == "0x" + Rendered(value, 16, true, fieldwidth)
  {
  }

  // What the arms d, u, x and p append.
  lemma FormattedIs(value: i32, fieldwidth: int)
    ensures PrintedAs(Formatted('d', value, fieldwidth), value, 10, fieldwidth)
    ensures PrintedAs(Formatted('u', value, fieldwidth), ToU32(value), 10, fieldwidth)
    ensures PrintedAs(Formatted('x', value, fieldwidth), ToU32(value), 16, fieldwidth)
    ensures exists hex ::
              Formatted('p', value, fieldwidth) == "0x" + hex && PrintedAs(hex, ToU32(value), 16, fieldwidth)
  {
    FormattedParts(value, fieldwidth);
    RenderedIs(value, 10, false, fieldwidth);
    RenderedIs(value, 10, true, fieldwidth);
    RenderedIs(value, 16, true, fieldwidth);
  }
}
