// The digit loop of itoa (lib/libc/vsprintf.c): descending divisors kept in a
// 32-bit `long`, and what is printed for the numbers whose leading divisor does
// not fit it.
module DigitLoop {
  import opened Numerals
  import opened Words

  // ---- The leading divisor ----

  // The divisor itoa starts from fits the 32-bit `long` it is kept in.
  predicate DivisorFits(n: nat, base: nat)
    requires base >= 2
  {
    Pow(base, NumDigits(n, base) - 1) < 0x8000_0000
  }

  // It always does for the two bases the conversions use.
  lemma DivisorFitsTen(n: u32)
    ensures DivisorFits(n, 10)
  {
    NumDigitsBounds(n, 10);
    assert Pow(10, 5) == 100000 && Pow(10, 10) == 10_000_000_000;
    if NumDigits(n, 10) - 1 >= 10 {
      PowMonotone(10, 10, NumDigits(n, 10) - 1);
    } else {
      PowMonotone(10, NumDigits(n, 10) - 1, 9);
      assert Pow(10, 9) == 1_000_000_000;
    }
  }

  lemma DivisorFitsSixteen(n: u32)
    ensures DivisorFits(n, 16)
  {
    NumDigitsBounds(n, 16);
    assert Pow(16, 4) == 0x1_0000 && Pow(16, 8) == 0x1_0000_0000;
    if NumDigits(n, 16) - 1 >= 8 {
      PowMonotone(16, 8, NumDigits(n, 16) - 1);
    } else {
      PowMonotone(16, NumDigits(n, 16) - 1, 7);
      assert Pow(16, 7) == 0x1000_0000;
    }
  }

  // In base 2 it overflows for the numbers with the top bit set.
  lemma DivisorFitsTwoExactlyWhen(n: u32)
    ensures DivisorFits(n, 2) <==> n < 0x8000_0000
  {
    NumDigitsBounds(n, 2);
    assert Pow(2, 8) == 0x100 && Pow(2, 16) == 0x1_0000 && Pow(2, 24) == 0x100_0000 && Pow(2, 31) == 0x8000_0000;
    if NumDigits(n, 2) <= 31 {
      PowMonotone(2, NumDigits(n, 2), 31);
    } else {
      PowMonotone(2, 31, NumDigits(n, 2) - 1);
    }
  }

  // ---- What the loop prints ----

  // How far a leading divisor that overflowed lies below 2^32: the C value of the
  // `long` is minus this.
  function Shortfall(n: nat, base: nat): nat
    requires base >= 2
  {
    var p := Pow(base, NumDigits(n, base) - 1);
    if p < 0x1_0000_0000 then 0x1_0000_0000 - p else 0
  }

  // The digits of the number if the divisor fits; a 1 and zeros if it does not.
  function DigitText(n: nat, base: nat): string
    requires 2 <= base <= 16
  {
    if DivisorFits(n, base) then Digits(n, base) else "1" + Zeros(NumDigits(Shortfall(n, base), base) - 1)
  }

  lemma LeadingPower(n: u32, base: nat)
    requires base >= 2
    ensures 1 <= Pow(base, NumDigits(n, base) - 1) < 0x1_0000_0000
    ensures n > 0 ==> Pow(base, NumDigits(n, base) - 1) <= n
    ensures !DivisorFits(n, base) ==> n >= 0x8000_0000 && 0 < Shortfall(n, base) <= 0x8000_0000
  {
    NumDigitsBounds(n, base);
    PowPositive(base, NumDigits(n, base) - 1);
  }

  lemma {:induction false} ValueOfOneAndZeros(k: nat, base: nat)
    ensures Value("1" + Zeros(k), base) == Pow(base, k)
  {
    var s := "1" + Zeros(k);
    if k == 0 {
      assert s == "1" && s[..0] == [] && Value(s[..0], base) == 0;
    } else {
      assert s[..k] == "1" + Zeros(k - 1);
      ValueOfOneAndZeros(k - 1, base);
    }
  }

  // The number is printed right exactly when its leading divisor fits, or is
  // 2^31 and the number itself.
  lemma DigitsRightExactlyWhen(n: u32, base: nat, leading: nat)
    requires 2 <= base <= 16 && leading == Pow(base, NumDigits(n, base) - 1)
    ensures DigitText(n, base) == Digits(n, base) <==> leading < 0x8000_0000 || n == leading == 0x8000_0000
  {
    if n == leading == 0x8000_0000 {
      PowerIsRight(n, base, NumDigits(n, base) - 1);
    } else if leading >= 0x8000_0000 {
      OthersAreWrong(n, base, leading);
    }
  }

  lemma PowerIsRight(n: u32, base: nat, k: nat)
    requires 2 <= base <= 16 && k == NumDigits(n, base) - 1 && n == Pow(base, k) == 0x8000_0000
    ensures DigitText(n, base) == Digits(n, base)
  {
    assert Shortfall(n, base) == n;
    PowerNumeral(k, base);
    ValueOfOneAndZeros(k, base);
    CanonicalNumeral("1" + Zeros(k), n, base);
  }

  lemma OthersAreWrong(n: u32, base: nat, leading: nat)
    requires 2 <= base <= 16 && leading == Pow(base, NumDigits(n, base) - 1) >= 0x8000_0000
    requires !(n == leading == 0x8000_0000)
    ensures DigitText(n, base) != Digits(n, base)
  {
    LeadingPower(n, base);
    var short := Shortfall(n, base);
    ValueOfOneAndZeros(NumDigits(short, base) - 1, base);
    NumDigitsBounds(short, base);
    DigitsDenote(n, base);
    TextsDiffer(DigitText(n, base), Digits(n, base), base, short);
  }

  lemma TextsDiffer(text: string, digits: string, base: nat, short: nat)
    requires text != "" && Value(text, base) == Pow(base, |text| - 1) <= short
    requires digits != "" && 0x8000_0000 <= Pow(base, |digits| - 1) == 0x1_0000_0000 - short
    requires !(Value(digits, base) == Pow(base, |digits| - 1) == 0x8000_0000)
    ensures text != digits
  {
  }

  lemma PowerNumeral(k: nat, base: nat)
    requires base >= 2
    ensures Numeral("1" + Zeros(k), base)
  {
  }

  // In base 2 that is every number up to 2^31; above it a 1 and 31 zeros come out.
  lemma BinaryRightExactlyWhen(n: u32)
    ensures DigitText(n, 2) == Digits(n, 2) <==> n <= 0x8000_0000
    ensures n >= 0x8000_0000 ==> DigitText(n, 2) == "1" + Zeros(31)
  {
    DigitsRightExactlyWhen(n, 2, Pow(2, NumDigits(n, 2) - 1));
    DivisorFitsTwoExactlyWhen(n);
    assert Pow(2, 8) == 0x100 && Pow(2, 16) == 0x1_0000 && Pow(2, 24) == 0x100_0000 && Pow(2, 31) == 0x8000_0000;
    if n >= 0x8000_0000 {
      ThirtyTwoDigits(n);
      ThirtyTwoDigits(0x8000_0000);
    }
  }

  lemma ThirtyTwoDigits(n: u32)
    requires n >= 0x8000_0000
    ensures NumDigits(n, 2) == 32
  {
    NumDigitsBounds(n, 2);
    assert Pow(2, 8) == 0x100 && Pow(2, 16) == 0x1_0000 && Pow(2, 24) == 0x100_0000 && Pow(2, 31) == 0x8000_0000;
    if NumDigits(n, 2) <= 31 {
      PowMonotone(2, NumDigits(n, 2), 31);
    } else if NumDigits(n, 2) >= 33 {
      PowMonotone(2, 32, NumDigits(n, 2) - 1);
    }
  }

  // ---- Digit by digit ----

  lemma NumDigitsStep(n: nat, base: nat)
    requires base >= 2
    ensures n / base >= 0 && (n > 0 ==> n / base < n)
    ensures NumDigits(n, base) == 1 + if n / base == 0 then 0 else NumDigits(n / base, base)
  {
  }

  // The digits `out` already printed and the value `rest` of the w still to come
  // make up n.
  predicate Splits(out: string, rest: nat, base: nat, w: nat, n: nat) {
    Numeral(out, base) && rest < Pow(base, w) && Value(out, base) * Pow(base, w) + rest == n
  }

  lemma DigitBound(rest: nat, base: nat, div: nat)
    requires div >= 1 && rest < base * div
    ensures rest / div < base && 0 <= rest / div * div <= rest < rest / div * div + div
  {
  }

  lemma MoveDigit(v: nat, base: nat, div: nat, d: nat, rest: int, n: int)
    requires v * (base * div) + rest == n
    ensures (v * base + d) * div + (rest - d * div) == n
  {
  }

  lemma DigitStep(out: string, rest: nat, base: nat, w: nat, n: nat)
    requires 2 <= base <= 16 && w >= 1 && Splits(out, rest, base, w, n)
    ensures Pow(base, w - 1) >= 1
    ensures var div := Pow(base, w - 1);
            var d := rest / div;
            d < base && 0 <= d * div <= rest && Splits(out + [DigitChar(d)], rest - d * div, base, w - 1, n)
  {
    PowPositive(base, w - 1);
    var div := Pow(base, w - 1);
    DigitBound(rest, base, div);
    var d := rest / div;
    MoveDigit(Value(out, base), base, div, d, rest, n);
    ValueOfLast(out, DigitChar(d), base);
  }

  lemma ValueOfLast(s: string, c: char, base: nat)
    ensures Value(s + [c], base) == Value(s, base) * base + DigitValue(c)
  {
  }

  lemma DivBounds(a: nat, b: nat)
    requires b >= 1
    ensures a / b * b <= a < a / b * b + b && a % b == a - a / b * b
  {
  }

  lemma DivisorShrinks(base: nat, k: nat)
    requires base >= 2
    ensures Pow(base, k) / base == if k == 0 then 0 else Pow(base, k - 1)
  {
    if k > 0 {
      DivExact(Pow(base, k - 1), base);
    }
  }

  lemma DivExact(q: nat, base: nat)
    requires base >= 1
    ensures base * q / base == q
  {
    DivBounds(base * q, base);
    QuotientUnique(q, 0, base * q / base, base * q % base, base);
  }

  lemma StartSplits(n: nat, base: nat)
    requires base >= 2
    ensures Splits("", n, base, NumDigits(n, base), n)
  {
    NumDigitsBounds(n, base);
    assert 0 * Pow(base, NumDigits(n, base)) == 0;
  }

  lemma EndSplits(out: string, rest: nat, base: nat, w: nat, n: nat)
    requires 2 <= base <= 16 && Splits(out, rest, base, w, n) && |out| == NumDigits(n, base) - w
    requires (if w == 0 then 0 else Pow(base, w - 1)) == 0
    ensures w == 0 && out == Digits(n, base)
  {
    if w > 0 {
      PowPositive(base, w - 1);
    }
    CanonicalNumeral(out, n, base);
  }

  // ---- The loop ----

  // `a / b` of C, for b > 0: towards zero.
  function Quotient(a: i32, b: nat): i32
    requires b >= 2
  {
    SmallerQuotient(AbsOf(a), b);
    if a >= 0 then a / b else -(AbsOf(a) / b)
  }

  function AbsOf(a: int): nat {
    if a >= 0 then a else -a
  }

  lemma SmallerQuotient(a: nat, b: nat)
    requires b >= 2
    ensures 0 <= a / b <= a && (a > 0 ==> a / b < a)
  {
  }

  // Where the loop is when `out` is printed, `rest` is left of n and `div` is the
  // divisor to come.
  predicate Stage(out: string, rest: u32, div: i32, base: nat, n: u32)
    requires 2 <= base <= 16
  {
    if DivisorFits(n, base) then FittingStage(out, rest, div, base, n) else OverflowStage(out, rest, div, base, n)
  }

  predicate FittingStage(out: string, rest: u32, div: i32, base: nat, n: u32)
    requires 2 <= base <= 16
  {
    && |out| <= NumDigits(n, base)
    && Splits(out, rest, base, NumDigits(n, base) - |out|, n)
    && div == (if |out| == NumDigits(n, base) then 0 else Pow(base, NumDigits(n, base) - |out| - 1))
  }

  predicate OverflowStage(out: string, rest: u32, div: i32, base: nat, n: u32)
    requires 2 <= base <= 16
  {
    && div <= 0
    && (if out == "" then rest == n && div < 0 && AbsOf(div) == Shortfall(n, base)
        else rest < 0x8000_0000 && AbsOf(div) <= 0x8000_0000 && out == "1" + Zeros(|out| - 1))
    && |out| + (if div == 0 then 0 else NumDigits(AbsOf(div), base)) == NumDigits(Shortfall(n, base), base)
  }

  lemma FirstStage(n: u32, base: nat, leading: i32)
    requires 2 <= base <= 16 && leading == ToI32(Pow(base, NumDigits(n, base) - 1))
    ensures Stage("", n, leading, base, n)
  {
    LeadingPower(n, base);
    StartSplits(n, base);
  }

  lemma LastStage(out: string, rest: u32, base: nat, n: u32)
    requires 2 <= base <= 16 && Stage(out, rest, 0, base, n)
    ensures out == DigitText(n, base)
  {
    if DivisorFits(n, base) {
      EndSplits(out, rest, base, NumDigits(n, base) - |out|, n);
    }
  }

  // The leading divisor: base to one less than the number of digits, in a `long`.
  // Only the last multiplication can overflow.
  method LeadingDivisor(digits: nat, base: nat) returns (div: i32)
    requires digits >= 1 && base >= 2 && Pow(base, digits - 1) < 0x1_0000_0000
    ensures div == ToI32(Pow(base, digits - 1))
  {
    var j: nat := digits - 1;
    div := 1;
    while j != 0
      invariant 0 <= j <= digits - 1 && div == ToI32(Pow(base, digits - 1 - j))
    {
      ghost var p := Pow(base, digits - 1 - j);
      assert Pow(base, digits - j) == base * p;
      PowMonotone(base, digits - j, digits - 1);
      HalfFits(p, base);
      div := ToI32(div * base);
      j := j - 1;
    }
  }

  lemma HalfFits(p: nat, base: nat)
    requires base >= 2 && base * p < 0x1_0000_0000
    ensures ToI32(p) == p && p * base == base * p
  {
    MulMonotone(2, base, p);
  }

  // One round of the loop, with the divisor read as unsigned: the digit printed,
  // what is left, the next divisor.
  predicate Round(rest: u32, div: i32, base: nat, c: char, rest': u32, div': i32)
    requires base >= 2
  {
    && div != 0
    && rest / ToU32(div) < 16 && c == DigitChar(rest / ToU32(div))
    && rest' == rest % ToU32(div) && div' == Quotient(div, base)
  }

  // The loop takes this path and prints this text on it.
  predicate Follows(path: seq<(u32, i32)>, text: string, base: nat)
    requires base >= 2
  {
    && |path| == |text| + 1 && path[|text|].1 == 0
    && forall i {:trigger text[i]} :: 0 <= i < |text| ==>
         Round(path[i].0, path[i].1, base, text[i], path[i + 1].0, path[i + 1].1)
  }

  lemma PathStep(rest: u32, div: i32, c: char, path: seq<(u32, i32)>, text: string, base: nat)
    requires base >= 2 && Follows(path, text, base)
    requires Round(rest, div, base, c, path[0].0, path[0].1)
    ensures Follows([(rest, div)] + path, [c] + text, base)
  {
    var longer, all := [(rest, div)] + path, [c] + text;
    forall i | 0 <= i < |all|
      ensures Round(longer[i].0, longer[i].1, base, all[i], longer[i + 1].0, longer[i + 1].1)
    {
      if i > 0 {
        assert all[i] == text[i - 1];
      }
    }
  }

  lemma {:induction false} StagePath(out: string, rest: u32, div: i32, base: nat, n: u32, all: string)
    returns (path: seq<(u32, i32)>, text: string)
    requires 2 <= base <= 16 && Stage(out, rest, div, base, n) && all == DigitText(n, base)
    ensures Follows(path, text, base) && path[0] == (rest, div) && out + text == all
    decreases AbsOf(div)
  {
    if div == 0 {
      LastStage(out, rest, base, n);
      path, text := [(rest, div)], "";
    } else {
      var c, left, next := StageRound(out, rest, div, base, n);
      path, text := StagePath(out + [c], left, next, base, n, all);
      path, text := Prepend(out, rest, div, c, path, text, base);
    }
  }

  lemma Prepend(out: string, rest: u32, div: i32, c: char, path: seq<(u32, i32)>, text: string, base: nat)
    returns (path': seq<(u32, i32)>, text': string)
    requires base >= 2 && Follows(path, text, base)
    requires Round(rest, div, base, c, path[0].0, path[0].1)
    ensures Follows(path', text', base) && path'[0] == (rest, div) && out + text' == out + [c] + text
  {
    PathStep(rest, div, c, path, text, base);
    path', text' := [(rest, div)] + path, [c] + text;
  }

  lemma StageRound(out: string, rest: u32, div: i32, base: nat, n: u32)
    returns (c: char, left: u32, next: i32)
    requires 2 <= base <= 16 && div != 0 && Stage(out, rest, div, base, n)
    ensures Round(rest, div, base, c, left, next) && AbsOf(next) < AbsOf(div)
    ensures Stage(out + [c], left, next, base, n)
  {
    if DivisorFits(n, base) {
      c, left, next := FittingRound(out, rest, div, base, n);
    } else {
      c, left, next := OverflowRound(out, rest, div, base, n);
    }
  }

  // From the leading divisor the loop prints the digit text.
  lemma LoopPath(n: u32, base: nat, leading: i32) returns (path: seq<(u32, i32)>)
    requires 2 <= base <= 16 && leading == ToI32(Pow(base, NumDigits(n, base) - 1))
    ensures Follows(path, DigitText(n, base), base) && path[0] == (n, leading)
  {
    FirstStage(n, base, leading);
    var text;
    path, text := StagePath("", n, leading, base, n, DigitText(n, base));
    assert "" + text == text;
  }

  // The code of a round.
  method NextDigit(absValue: u32, div: i32, base: nat, ghost c: char, ghost rest': u32, ghost div': i32)
    returns (d: nat, rest: u32, next: i32)
    requires base >= 2 && Round(absValue, div, base, c, rest', div')
    ensures d < 16 && DigitChar(d) == c && rest == rest' && next == div'
  {
    d := absValue / ToU32(div);
    RemainderInC(absValue, div, d);
    rest := ToU32(absValue - ToU32(d * div));
    next := Quotient(div, base);
  }

  lemma RemainderInC(rest: u32, div: i32, d: nat)
    requires div != 0 && d == rest / ToU32(div)
    ensures ToU32(rest - ToU32(d * div)) == rest % ToU32(div)
  {
    DivBounds(rest, ToU32(div));
    if div < 0 {
      DivBelowTwo(rest, ToU32(div));
    }
  }

  lemma DivBelowTwo(n: nat, p: nat)
    requires 0 < p && n < 2 * p
    ensures n / p == if n < p then 0 else 1
    ensures n % p == if n < p then n else n - p
  {
    if n >= p {
      DivOne(n, p);
    }
  }

  lemma FittingRound(out: string, rest: u32, div: i32, base: nat, n: u32)
    returns (c: char, left: u32, next: i32)
    requires 2 <= base <= 16 && div != 0 && FittingStage(out, rest, div, base, n)
    ensures Round(rest, div, base, c, left, next) && AbsOf(next) < AbsOf(div)
    ensures FittingStage(out + [c], left, next, base, n)
  {
    var w := NumDigits(n, base) - |out|;
    PowPositive(base, w - 1);
    DivBounds(rest, div);
    DigitStep(out, rest, base, w, n);
    DivisorShrinks(base, w - 1);
    SmallerQuotient(div, base);
    c, left, next := DigitChar(rest / div), rest % div, Quotient(div, base);
  }

  lemma OverflowRound(out: string, rest: u32, div: i32, base: nat, n: u32)
    returns (c: char, left: u32, next: i32)
    requires 2 <= base <= 16 && !DivisorFits(n, base) && div != 0 && OverflowStage(out, rest, div, base, n)
    ensures Round(rest, div, base, c, left, next) && AbsOf(next) < AbsOf(div)
    ensures OverflowStage(out + [c], left, next, base, n)
  {
    LeadingPower(n, base);
    var p := ToU32(div);
    assert p == 0x1_0000_0000 - AbsOf(div);
    DivBelowTwo(rest, p);
    SmallerQuotient(AbsOf(div), base);
    c, left, next := DigitChar(rest / p), rest % p, Quotient(div, base);
    NumDigitsStep(AbsOf(div), base);
    assert out + [c] == "1" + Zeros(|out|);
  }

  lemma DivOne(n: nat, p: nat)
    requires 0 < p <= n < 2 * p
    ensures n / p == 1
  {
    DivBounds(n, p);
    QuotientUnique(n / p, n % p, 1, n - p, p);
  }
}
